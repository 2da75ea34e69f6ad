/** The EIP-1559 transaction builder: fields are appended behind a six-byte gap, and the list prefix is written
    into the gap twice, before and after signing. */
module Transactions {
  import opened Bytes
  import opened Rlp
  import Numbers

  const GAP: nat := 6
  const TYPE: Byte := 2

  /** dst is the address as stored, lowest byte first. */
  datatype Transaction = Transaction(nonce: nat, maxPriorityFee: nat, maxFee: nat, gasLimit: nat, dst: seq<Byte>,
    value: nat, calldata: seq<Byte>)

  datatype Signature = Signature(v: nat, r: nat, s: nat)

  /** The fields fit their machine types, and the whole output its 32-bit index. */
  predicate Sized(t: Transaction) {
    && t.nonce < LIMIT && t.maxPriorityFee < LIMIT && t.maxFee < LIMIT && t.gasLimit < 0x1_0000_0000
    && |t.dst| == 20 && |Minimal(t.value)| <= 32 && |t.calldata| < 0x7000_0000
  }

  predicate SizedSignature(g: Signature) {
    g.v < 2 && |Minimal(g.r)| <= 32 && |Minimal(g.s)| <= 32
  }

  // ---------- the standard envelope of EIP-1559 ----------

  function Integer(n: nat): Item { Str(Minimal(n)) }

  function Fields(t: Transaction): seq<Item> {
    [Integer(1), Integer(t.nonce), Integer(t.maxPriorityFee), Integer(t.maxFee), Integer(t.gasLimit),
     Str(Reversed(t.dst)), Integer(t.value), Str(t.calldata), List([])]
  }

  function SignatureFields(g: Signature): seq<Item> {
    [Integer(g.v), Integer(g.r), Integer(g.s)]
  }

  /** What is signed. */
  function Unsigned(t: Transaction): seq<Byte> {
    [TYPE] + Encode(List(Fields(t)))
  }

  function Envelope(t: Transaction, g: Signature): seq<Byte> {
    [TYPE] + Encode(List(Fields(t) + SignatureFields(g)))
  }

  /** The order of EIP-1559: chain id, nonce, priority fee, fee cap, gas limit, destination, value, data, access list,
      and for the envelope parity, r and s; integers as minimal big-endian bytes, the address most significant byte
      first. */
  lemma EnvelopeFields(t: Transaction, g: Signature)
    ensures var f, h := Fields(t), SignatureFields(g);
      && |f| == 9 && |h| == 3
      && Envelope(t, g) == [2] + Encode(List(f + h)) && Unsigned(t) == [2] + Encode(List(f))
      && Holds(f[0], 1) && Holds(f[1], t.nonce) && Holds(f[2], t.maxPriorityFee) && Holds(f[3], t.maxFee)
      && Holds(f[4], t.gasLimit) && Holds(f[6], t.value)
      && f[5].Str? && |f[5].bytes| == |t.dst|
      && (forall i :: 0 <= i < |t.dst| ==> f[5].bytes[i] == t.dst[|t.dst| - 1 - i])
      && f[7] == Str(t.calldata) && f[8] == List([])
      && Holds(h[0], g.v) && Holds(h[1], g.r) && Holds(h[2], g.s)
  {
    hide Encode, Integer, Holds;
    IntegerHolds(1);
    IntegerHolds(t.nonce);
    IntegerHolds(t.maxPriorityFee);
    IntegerHolds(t.maxFee);
    IntegerHolds(t.gasLimit);
    IntegerHolds(t.value);
    IntegerHolds(g.v);
    IntegerHolds(g.r);
    IntegerHolds(g.s);
  }

  lemma IntegerHolds(n: nat)
    ensures Holds(Integer(n), n)
  {
    MinimalValue(n);
  }

  /** A string of the integer's bytes, without a leading zero. */
  predicate Holds(x: Item, n: nat) {
    x.Str? && FromBytes(x.bytes) == n && (x.bytes != [] ==> x.bytes[0] != 0)
  }

  // ---------- what the builder writes ----------

  function WrittenHead(t: Transaction): seq<Byte> {
    Encode(Integer(1)) + Encode(Integer(t.nonce)) + Encode(Integer(t.maxPriorityFee)) + Encode(Integer(t.maxFee))
    + Encode(Integer(t.gasLimit)) + Encode(Str(Reversed(t.dst))) + Encode(Integer(t.value))
  }

  function WrittenFields(t: Transaction): (w: seq<Byte>)
    requires Sized(t)
    ensures |w| < 0x7100_0000
  {
    HeadSize(t);
    WrittenHead(t) + WrittenString(t.calldata) + [0xC0]
  }

  function WrittenSignature(g: Signature): seq<Byte> {
    Encode(Integer(g.v)) + Encode(Integer(g.r)) + Encode(Integer(g.s))
  }

  function Framed(payload: seq<Byte>): seq<Byte>
    requires |payload| < 0x8000_0000
  {
    [TYPE] + WrittenListHeader(|payload|) + payload
  }

  lemma {:induction false} EncodeAllAppend(l: seq<Item>, m: seq<Item>)
    ensures EncodeAll(l + m) == EncodeAll(l) + EncodeAll(m)
  {
    if l == [] {
      assert l + m == m;
    } else {
      assert (l + m)[1..] == l[1..] + m;
      EncodeAllAppend(l[1..], m);
    }
  }

  lemma OneItem(x: Item)
    ensures EncodeAll([x]) == Encode(x)
  {
    assert EncodeAll([x]) == Encode(x) + EncodeAll([]);
  }

  lemma IntegerSize(n: nat, k: nat)
    requires |Minimal(n)| <= k <= 32
    ensures 1 <= |Encode(Integer(n))| <= k + 1
  {
  }

  lemma HeadSize(t: Transaction)
    requires Sized(t)
    ensures 7 <= |WrittenHead(t)| <= 87
  {
    hide Encode, Minimal;
    PowEight();
    Numbers.PowSquare(256, 2);
    Numbers.PowSquare(0x1_0000, 1);
    MinimalBytes(t.nonce, 8);
    MinimalBytes(t.maxPriorityFee, 8);
    MinimalBytes(t.maxFee, 8);
    MinimalBytes(t.gasLimit, 4);
    VSize(1);
    IntegerSize(t.nonce, 8);
    IntegerSize(t.maxPriorityFee, 8);
    IntegerSize(t.maxFee, 8);
    IntegerSize(t.gasLimit, 4);
    IntegerSize(t.value, 32);
    AddressSize(t.dst);
  }

  lemma AddressSize(dst: seq<Byte>)
    requires |dst| == 20
    ensures |Encode(Str(Reversed(dst)))| == 21
  {
  }

  lemma EncodeAllSnoc(l: seq<Item>, x: Item)
    ensures EncodeAll(l + [x]) == EncodeAll(l) + Encode(x)
  {
    EncodeAllAppend(l, [x]);
    OneItem(x);
  }

  lemma ThreeItems(x: Item, y: Item, z: Item)
    ensures EncodeAll([x, y, z]) == Encode(x) + Encode(y) + Encode(z)
  {
    hide EncodeAll, Encode;
    OneItem(x);
    EncodeAllSnoc([x], y);
    EncodeAllSnoc([x] + [y], z);
    assert [x] + [y] + [z] == [x, y, z];
  }

  lemma FieldBytes(t: Transaction)
    ensures EncodeAll(Fields(t)) == WrittenHead(t) + Encode(Str(t.calldata)) + [0xC0]
  {
    hide EncodeAll, Encode, Integer, Minimal;
    var f := Fields(t);
    ThreeItems(f[0], f[1], f[2]);
    EncodeAllSnoc(f[..3], f[3]);
    EncodeAllSnoc(f[..4], f[4]);
    EncodeAllSnoc(f[..5], f[5]);
    EncodeAllSnoc(f[..6], f[6]);
    EncodeAllSnoc(f[..7], f[7]);
    EncodeAllSnoc(f[..8], f[8]);
    assert f[..3] == [f[0], f[1], f[2]] && f[..4] == f[..3] + [f[3]] && f[..5] == f[..4] + [f[4]];
    assert f[..6] == f[..5] + [f[5]] && f[..7] == f[..6] + [f[6]];
    assert f[..8] == f[..7] + [f[7]] && f == f[..8] + [f[8]];
    EmptyList();
  }

  lemma EmptyList()
    ensures Encode(List([])) == [0xC0]
  {
  }

  lemma SignedFieldBytes(t: Transaction, g: Signature)
    ensures EncodeAll(Fields(t) + SignatureFields(g)) == EncodeAll(Fields(t)) + WrittenSignature(g)
  {
    hide Fields;
    EncodeAllAppend(Fields(t), SignatureFields(g));
    ThreeItems(Integer(g.v), Integer(g.r), Integer(g.s));
  }

  // ---------- the builder ----------

  /** Appends the nine unsigned fields. */
  method EncodeFields(t: Transaction, encoder: Encoder)
    requires Sized(t)
    modifies encoder
    ensures encoder.dst == old(encoder.dst) + WrittenFields(t)
  {
    hide Encode, WrittenString;
    var chainId := 1;
    HeadSize(t);
    encoder.EncodeNumber(chainId);
    encoder.EncodeNumber(t.nonce);
    encoder.EncodeNumber(t.maxPriorityFee);
    encoder.EncodeNumber(t.maxFee);
    encoder.EncodeNumber(t.gasLimit);
    AddressWritten(t.dst);
    encoder.EncodeReversed(t.dst);
    encoder.EncodeWide(t.value);
    assert encoder.dst == old(encoder.dst) + WrittenHead(t);
    encoder.EncodeString(t.calldata);
    encoder.EncodeLength(0, 0xC0);
    EmptyPrefix();
  }

  lemma AddressWritten(dst: seq<Byte>)
    requires |dst| == 20
    ensures WrittenString(Reversed(dst)) == Encode(Str(Reversed(dst)))
  {
    WrittenStringRight(Reversed(dst));
  }

  lemma EmptyPrefix()
    ensures WrittenLength(0, 0xC0) == [0xC0]
  {
  }

  /** Writes prefix and type in front of the payload; gives where they start. */
  method CloseList(encoder: Encoder) returns (start: nat)
    requires GAP <= |encoder.dst| && |encoder.dst| - GAP < 0x8000_0000
    modifies encoder
    ensures start + 1 + LengthOfLength(|old(encoder.dst)| - GAP) == GAP && |encoder.dst| == |old(encoder.dst)|
    ensures encoder.dst[start..] == Framed(old(encoder.dst)[GAP..]) && encoder.dst[GAP..] == old(encoder.dst)[GAP..]
  {
    hide WrittenListHeader, LengthOfLength;
    var at := encoder.EncodeListStartAtOffset(GAP);
    encoder.dst := encoder.dst[at - 1 := TYPE];
    start := at - 1;
  }

  lemma FieldsSize(t: Transaction)
    requires Sized(t)
    ensures |WrittenHead(t)| + |t.calldata| <= |WrittenFields(t)| <= |WrittenHead(t)| + |t.calldata| + 6
    ensures |WrittenHead(t)| <= 87
  {
    hide Encode;
    HeadSize(t);
  }

  lemma SignatureSize(g: Signature)
    requires SizedSignature(g)
    ensures 3 <= |WrittenSignature(g)| <= 67
  {
    hide Encode, Minimal;
    VSize(g.v);
    IntegerSize(g.r, 32);
    IntegerSize(g.s, 32);
  }

  lemma VSize(v: nat)
    requires v < 2
    ensures |Encode(Integer(v))| == 1
  {
    assert Minimal(0) == [] && Minimal(1) == Minimal(0) + [1];
  }

  // ---------- the envelope is the standard one ----------

  lemma {:induction false} MinimalMonotone(a: nat, b: nat)
    requires a <= b
    ensures |Minimal(a)| <= |Minimal(b)|
  {
    if a > 0 {
      MinimalMonotone(a / 256, b / 256);
    }
  }

  lemma WrittenNoLonger(c: seq<Byte>)
    requires 56 <= |c| < 0x8000_0000
    ensures |WrittenString(c)| <= |Encode(Str(c))| && |c| < |Encode(Str(c))|
    ensures |WrittenString(c)| == |Encode(Str(c))| ==> |c| >= 0x100_0000
  {
    if |c| < 0x100_0000 {
      WrittenLengthRight(|c|, 0x80);
      MinimalValue(|c|);
    } else {
      FourLengthBytes(|c|, 0x80);
    }
  }

  lemma PalindromeValue(n: nat)
    requires 0x100_0000 <= n < 0x8000_0000
    requires LengthByte(n, 0) == LengthByte(n, 3) && LengthByte(n, 1) == LengthByte(n, 2)
    ensures n == 0x100_0001 * LengthByte(n, 0) + 0x1_0100 * LengthByte(n, 1)
  {
    LengthDigits(n);
  }

  /** A calldata length and the list length around it cannot both read the same both ways. */
  lemma NotBothPalindromes(c: nat, n: nat)
    requires 0x100_0000 <= c < n < 0x8000_0000 && FourBytePalindrome(c) && Palindrome(Minimal(n))
    ensures n - c > 256
  {
    hide LengthByte;
    ShortMinimal(n);
    assert Minimal(n)[0] == Minimal(n)[3] && Minimal(n)[1] == Minimal(n)[2];
    PalindromeValue(c);
    PalindromeValue(n);
    var da, db := LengthByte(n, 0) - LengthByte(c, 0), LengthByte(n, 1) - LengthByte(c, 1);
    assert n - c == 0x100_0001 * da + 0x1_0100 * db && -255 <= db <= 255;
    if da == 0 {
    } else if da >= 1 {
    } else {
    }
  }

  /** With prefixes of equal length, the frame is right only if both prefixes are. */
  lemma FrameParts(head: seq<Byte>, c: seq<Byte>, rest: seq<Byte>)
    requires 56 <= |c| < 0x7000_0000 && |head| + |rest| <= 155
    requires |WrittenString(c)| == |Encode(Str(c))|
    ensures var written, right := head + WrittenString(c) + rest, head + Encode(Str(c)) + rest;
      && |written| == |right| < 0x8000_0000
      && (Framed(written) == [TYPE] + Header(|right|, 0xC0) + right ==>
            FourBytePalindrome(|c|) && WrittenListHeader(|right|) == Header(|right|, 0xC0))
  {
    hide WrittenListHeader, Header, FourBytePalindrome, WrittenString, Encode;
    StringSizes(c);
    var w, e := WrittenString(c), Encode(Str(c));
    var written, right := head + w + rest, head + e + rest;
    var h, g := WrittenListHeader(|written|), Header(|right|, 0xC0);
    HeaderLength(|right|);
    if [TYPE] + h + written == [TYPE] + g + right {
      SameParts([TYPE], h, written, g, right);
      SameParts(head, w, rest, e, rest);
      WrittenStringRight(c);
    }
  }

  lemma SameParts(a: seq<Byte>, x: seq<Byte>, r: seq<Byte>, y: seq<Byte>, q: seq<Byte>)
    requires |x| == |y| && a + x + r == a + y + q
    ensures x == y && r == q
  {
    var n := |a| + |x|;
    assert x == (a + x + r)[|a|..n] && y == (a + y + q)[|a|..n];
    assert r == (a + x + r)[n..] && q == (a + y + q)[n..];
  }

  /** A frame around a calldata string is right exactly up to 55 bytes of calldata. */
  lemma FrameExact(head: seq<Byte>, c: seq<Byte>, rest: seq<Byte>)
    requires |head| + |rest| <= 155 && |c| < 0x7000_0000
    ensures var written, right := head + WrittenString(c) + rest, head + Encode(Str(c)) + rest;
      && |written| < 0x8000_0000 && |right| < LIMIT
      && (Framed(written) == [TYPE] + Header(|right|, 0xC0) + right <==> |c| <= 55)
      && (|c| <= 55 ==> |written| <= |head| + |rest| + 56)
  {
    hide WrittenListHeader, Header, FourBytePalindrome, Palindrome, WrittenString, Encode;
    StringSizes(c);
    var written, right := head + WrittenString(c) + rest, head + Encode(Str(c)) + rest;
    if |c| <= 55 {
      WrittenStringRight(c);
      WrittenListHeaderRight(|written|);
    } else {
      WrittenNoLonger(c);
      HeaderLength(|right|);
      if |written| < |right| {
        MinimalMonotone(|written|, |right|);
        assert |Framed(written)| < |[TYPE] + Header(|right|, 0xC0) + right|;
      } else {
        FrameParts(head, c, rest);
        WrittenListHeaderRight(|right|);
        if FourBytePalindrome(|c|) && Palindrome(Minimal(|right|)) {
          NotBothPalindromes(|c|, |right|);
        }
      }
    }
  }

  lemma StringSizes(c: seq<Byte>)
    requires |c| < 0x7000_0000
    ensures |WrittenString(c)| <= |c| + 5 && |c| <= |Encode(Str(c))| <= |c| + 5
    ensures |c| <= 55 ==> |WrittenString(c)| <= |c| + 1
  {
    MinimalFour(|c|);
  }

  lemma HeaderLength(n: nat)
    requires n < LIMIT
    ensures |Header(n, 0xC0)| == if n < 56 then 1 else 1 + |Minimal(n)|
  {
  }

  /** The signed message and the exported transaction are the standard bytes exactly up to 55 bytes of calldata;
      the payload is then at most 211 bytes. */
  lemma EnvelopeExact(t: Transaction, g: Signature)
    requires Sized(t) && SizedSignature(g)
    ensures Framed(WrittenFields(t)) == Unsigned(t) <==> |t.calldata| <= 55
    ensures var payload := WrittenFields(t) + WrittenSignature(g);
      && |payload| < 0x8000_0000
      && (Framed(payload) == Envelope(t, g) <==> |t.calldata| <= 55)
      && (|t.calldata| <= 55 ==> |payload| <= 211)
  {
    hide Encode, WrittenString, Header, WrittenListHeader;
    var c, sig := t.calldata, WrittenSignature(g);
    HeadSize(t);
    SignatureSize(g);
    FieldBytes(t);
    SignedFieldBytes(t, g);
    FrameExact(WrittenHead(t), c, [0xC0]);
    FrameExact(WrittenHead(t), c, [0xC0] + sig);
    ListEncoding(Fields(t));
    ListEncoding(Fields(t) + SignatureFields(g));
    assert WrittenFields(t) + sig == WrittenHead(t) + WrittenString(c) + ([0xC0] + sig);
    assert EncodeAll(Fields(t)) + sig == WrittenHead(t) + Encode(Str(c)) + ([0xC0] + sig);
  }

  lemma ListEncoding(l: seq<Item>)
    requires |EncodeAll(l)| < LIMIT
    ensures [TYPE] + Encode(List(l)) == [TYPE] + Header(|EncodeAll(l)|, 0xC0) + EncodeAll(l)
  {
    assert [TYPE] + (Header(|EncodeAll(l)|, 0xC0) + EncodeAll(l)) ==
      [TYPE] + Header(|EncodeAll(l)|, 0xC0) + EncodeAll(l);
  }

  /** The caller reads the transaction from index out[0]; past 2^24 bytes of payload the type byte and that index
      share a place. */
  method SignAndExport(t: Transaction, sign: seq<Byte> -> Signature) returns (out: seq<Byte>)
    requires Sized(t) && forall m :: SizedSignature(sign(m))
    ensures var g := sign(Framed(WrittenFields(t)));
      var payload := WrittenFields(t) + WrittenSignature(g);
      && |payload| < 0x8000_0000 && |out| == GAP + |payload|
      && out[0] + 1 + LengthOfLength(|payload|) == GAP
      && (out[0] > 0 ==> out[out[0]..] == Framed(payload))
    ensures |t.calldata| <= 55 ==>
      && 3 <= out[0] <= 4 && |out| <= GAP + 211
      && out[out[0]..] == Envelope(t, sign(Unsigned(t)))
  {
    hide Encode, WrittenString, LengthOfLength, WrittenListHeader, WrittenFields, Framed, Unsigned, Envelope;
    var encoder := new Encoder([0, 0, 0, 0, 0, 0]);
    EncodeFields(t, encoder);
    FieldsSize(t);
    assert encoder.dst[GAP..] == WrittenFields(t);
    var start := CloseList(encoder);
    var signature := sign(encoder.dst[start..]);
    SignatureSize(signature);
    encoder.EncodeNumber(signature.v);
    encoder.EncodeWide(signature.r);
    encoder.EncodeWide(signature.s);
    ghost var payload := WrittenFields(t) + WrittenSignature(signature);
    assert encoder.dst[GAP..] == payload;
    start := CloseList(encoder);
    ghost var framed := encoder.dst[start..];
    out := encoder.dst[0 := start];
    assert start > 0 ==> out[start..] == framed;
    if |t.calldata| <= 55 {
      EnvelopeExact(t, signature);
      ShortPrefix(|payload|);
    }
  }

  lemma ShortPrefix(n: nat)
    requires n <= 211
    ensures 1 <= LengthOfLength(n) <= 2
  {
    if n > 0 {
      OneByte(n);
    }
  }

  lemma {:induction false} EncodableEach(l: seq<Item>)
    requires forall i :: 0 <= i < |l| ==> Encodable(l[i])
    ensures EncodableAll(l)
  {
    if l != [] {
      EncodableEach(l[1..]);
    }
  }

  function AllFields(t: Transaction, g: Signature): seq<Item> {
    Fields(t) + SignatureFields(g)
  }

  lemma EnvelopeEncodable(t: Transaction, g: Signature)
    requires Sized(t) && SizedSignature(g)
    ensures Encodable(List(AllFields(t, g))) && Envelope(t, g) == [TYPE] + Encode(List(AllFields(t, g)))
  {
    hide Encode, WrittenString, EncodeAll;
    IntegersEncodable(t, g);
    EncodableEach(AllFields(t, g));
    HeadSize(t);
    SignatureSize(g);
    FieldBytes(t);
    SignedFieldBytes(t, g);
    StringSizes(t.calldata);
  }

  lemma IntegersEncodable(t: Transaction, g: Signature)
    requires Sized(t) && SizedSignature(g)
    ensures forall i :: 0 <= i < 12 ==> Encodable(AllFields(t, g)[i])
  {
    hide Minimal, EncodeAll;
    HeadSize(t);
    PowEight();
    MinimalBytes(1, 1);
    MinimalBytes(t.nonce, 8);
    MinimalBytes(t.maxPriorityFee, 8);
    MinimalBytes(t.maxFee, 8);
    MinimalBytes(t.gasLimit, 8);
    MinimalBytes(g.v, 8);
    assert EncodeAll([]) == [] by { NoItems(); }
  }

  lemma NoItems()
    ensures EncodeAll([]) == []
  {
  }

  lemma IntegerInjective(a: nat, b: nat)
    requires Integer(a) == Integer(b)
    ensures a == b
  {
    MinimalValue(a);
    MinimalValue(b);
  }

  lemma ReversedInjective(a: seq<Byte>, b: seq<Byte>)
    requires Reversed(a) == Reversed(b)
    ensures a == b
  {
    assert |a| == |b|;
    forall i | 0 <= i < |a|
      ensures a[i] == b[i]
    {
      assert Reversed(a)[|a| - 1 - i] == Reversed(b)[|a| - 1 - i];
    }
  }

  lemma FieldsInjective(t: Transaction, g: Signature, u: Transaction, h: Signature)
    requires AllFields(t, g) == AllFields(u, h)
    ensures t == u && g == h
  {
    hide Integer, Reversed;
    var p, q := AllFields(t, g), AllFields(u, h);
    assert Fields(t) == p[..9] && Fields(u) == q[..9];
    assert forall i :: 0 <= i < 9 ==> Fields(t)[i] == Fields(u)[i];
    assert Fields(t)[1] == Fields(u)[1] && Fields(t)[2] == Fields(u)[2] && Fields(t)[3] == Fields(u)[3];
    assert Fields(t)[4] == Fields(u)[4] && Fields(t)[6] == Fields(u)[6];
    IntegerInjective(t.nonce, u.nonce);
    IntegerInjective(t.maxPriorityFee, u.maxPriorityFee);
    IntegerInjective(t.maxFee, u.maxFee);
    IntegerInjective(t.gasLimit, u.gasLimit);
    IntegerInjective(t.value, u.value);
    ReversedInjective(t.dst, u.dst);
    IntegerInjective(g.v, h.v);
    IntegerInjective(g.r, h.r);
    IntegerInjective(g.s, h.s);
  }

  /** An envelope's bytes determine all twelve fields. */
  lemma EnvelopeUnique(t: Transaction, g: Signature, u: Transaction, h: Signature)
    requires Sized(t) && SizedSignature(g) && Sized(u) && SizedSignature(h)
    requires Envelope(t, g) == Envelope(u, h)
    ensures t == u && g == h
  {
    hide Encode, Encodable, AllFields, Envelope, Sized, SizedSignature;
    EnvelopeEncodable(t, g);
    EnvelopeEncodable(u, h);
    var x, y := List(AllFields(t, g)), List(AllFields(u, h));
    assert ([TYPE] + Encode(x))[1..] == Encode(x) && ([TYPE] + Encode(y))[1..] == Encode(y);
    assert Encode(x) + [] == Encode(x) && Encode(y) + [] == Encode(y);
    Unique(x, y, [], []);
    FieldsInjective(t, g, u, h);
  }
}
