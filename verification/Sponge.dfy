/** The Keccak sponge over an arbitrary permutation of its 200-byte state. */
module Sponge {
  import Numbers

  const WIDTH: nat := 200
  type State = s: seq<bv8> | |s| == WIDTH witness seq(WIDTH, _ => 0)
  type Permutation = State -> State

  // ---------- section 4 of FIPS 202 ----------

  function Xor(a: bv8, b: bv8): bv8 { a ^ b }

  /** The state with a block XORed over its start. */
  function XorBlock(s: State, b: seq<bv8>): (r: State)
    requires |b| <= WIDTH
    ensures forall i :: 0 <= i < WIDTH ==> r[i] == if i < |b| then Xor(s[i], b[i]) else s[i]
  {
    seq(WIDTH, i requires 0 <= i < WIDTH => if i < |b| then Xor(s[i], b[i]) else s[i])
  }

  /** Absorbs the whole blocks of p. */
  function Absorb(f: Permutation, rate: nat, s: State, p: seq<bv8>): State
    requires 0 < rate < WIDTH
    decreases |p|
  {
    if |p| < rate then s else Absorb(f, rate, f(XorBlock(s, p[..rate])), p[rate..])
  }

  /** The first n output bytes: one rate of each state. */
  function Squeeze(f: Permutation, rate: nat, s: State, n: nat): (out: seq<bv8>)
    requires 0 < rate < WIDTH
    ensures |out| == n
    decreases n
  {
    if n < rate then s[..n] else s[..rate] + Squeeze(f, rate, f(s), n - rate)
  }

  function ZeroState(): (s: State)
    ensures forall i :: 0 <= i < WIDTH ==> s[i] == 0
  {
    seq(WIDTH, _ => 0)
  }

  /** Domain suffix and pad10*1 of section 5.1, as bytes: k of them. */
  function Tail(k: nat, delim: bv8): (t: seq<bv8>)
    requires k > 0
    ensures |t| == k
  {
    if k == 1 then [Xor(delim, 0x80)] else [delim] + seq(k - 2, _ => 0) + [0x80]
  }

  function Pad(message: seq<bv8>, rate: nat, delim: bv8): (p: seq<bv8>)
    requires rate > 0
    ensures |p| % rate == 0 && |message| < |p| <= |message| + rate
  {
    var k := rate - |message| % rate;
    PadLength(|message|, rate);
    message + Tail(k, delim)
  }

  lemma PadLength(n: nat, rate: nat)
    requires rate > 0
    ensures (n + (rate - n % rate)) % rate == 0
  {
    Numbers.DivModUnique(n + (rate - n % rate), rate, n / rate + 1, 0);
  }

  /** The sponge construction. */
  function Hash(f: Permutation, rate: nat, delim: bv8, message: seq<bv8>, n: nat): (out: seq<bv8>)
    requires 0 < rate < WIDTH
    ensures |out| == n
  {
    Squeeze(f, rate, Absorb(f, rate, ZeroState(), Pad(message, rate, delim)), n)
  }

  /** A shorter output is a prefix of a longer one. */
  lemma {:induction false} SqueezePrefix(f: Permutation, rate: nat, s: State, m: nat, n: nat)
    requires 0 < rate < WIDTH && m <= n
    ensures Squeeze(f, rate, s, m) == Squeeze(f, rate, s, n)[..m]
    decreases m
  {
    if m >= rate {
      SqueezePrefix(f, rate, f(s), m - rate, n - rate);
    }
  }

  lemma {:induction false} AbsorbAppend(f: Permutation, rate: nat, s: State, p: seq<bv8>, q: seq<bv8>)
    requires 0 < rate < WIDTH && |p| % rate == 0
    ensures Absorb(f, rate, s, p + q) == Absorb(f, rate, Absorb(f, rate, s, p), q)
    decreases |p|
  {
    if |p| < rate {
      Numbers.DivModUnique(|p|, rate, 0, |p|);
      assert p + q == q;
    } else {
      Numbers.ModShift(|p|, -1, rate);
      assert (p + q)[..rate] == p[..rate] && (p + q)[rate..] == p[rate..] + q;
      AbsorbAppend(f, rate, f(XorBlock(s, p[..rate])), p[rate..], q);
    }
  }

  /** No two messages share a padding. */
  lemma PadInjective(a: seq<bv8>, b: seq<bv8>, rate: nat, delim: bv8)
    requires rate > 0 && delim != 0 && Pad(a, rate, delim) == Pad(b, rate, delim)
    ensures a == b
  {
    if |a| < |b| {
      PadLonger(a, b, rate, delim);
    } else if |b| < |a| {
      PadLonger(b, a, rate, delim);
    } else {
      assert a == Pad(a, rate, delim)[..|a|] && b == Pad(b, rate, delim)[..|b|];
    }
  }

  /** Where the longer message's delimiter stands, the shorter one's padding has another byte. */
  lemma PadLonger(a: seq<bv8>, b: seq<bv8>, rate: nat, delim: bv8)
    requires rate > 0 && delim != 0 && |a| < |b|
    ensures Pad(a, rate, delim) != Pad(b, rate, delim)
  {
    hide Xor;
    var p, q := Pad(a, rate, delim), Pad(b, rate, delim);
    if |p| == |q| {
      assert p[|b|] == (if |b| == |p| - 1 then 0x80 else 0);
      assert q[|b|] == (if |b| == |q| - 1 then Xor(delim, 0x80) else delim);
      XorChanges(delim);
    }
  }

  lemma XorChanges(d: bv8)
    ensures d != 0 ==> Xor(d, 0x80) != 0x80
  {
  }

  // ---------- section 5.1 of FIPS 202, bit by bit ----------

  /** Section B.1: the bits of a byte, lowest first. */
  function ByteBits(b: bv8): (s: seq<bool>)
    ensures |s| == 8
  {
    [b & 1 != 0, b & 2 != 0, b & 4 != 0, b & 8 != 0, b & 16 != 0, b & 32 != 0, b & 64 != 0, b & 128 != 0]
  }

  function Bits(s: seq<bv8>): seq<bool> {
    if s == [] then [] else ByteBits(s[0]) + Bits(s[1..])
  }

  function Mask(i: nat): bv8
    requires i < 8
  {
    [1, 2, 4, 8, 16, 32, 64, 128][i]
  }

  lemma BitAt(b: bv8, i: nat)
    requires i < 8
    ensures ByteBits(b)[i] == (b & Mask(i) != 0)
  {
  }

  /** Bit by bit, XOR is true where the operands differ. */
  lemma XorBits(a: bv8, b: bv8, i: nat)
    requires i < 8
    ensures ByteBits(Xor(a, b))[i] == (ByteBits(a)[i] != ByteBits(b)[i])
  {
    hide ByteBits, Mask, Xor;
    BitAt(a, i);
    BitAt(b, i);
    BitAt(Xor(a, b), i);
    OneBit(i);
    XorBit(a, b, Mask(i));
  }

  lemma OneBit(i: nat)
    requires i < 8
    ensures Mask(i) in [1, 2, 4, 8, 16, 32, 64, 128]
  {
  }

  lemma XorBit(a: bv8, b: bv8, m: bv8)
    requires m in [1, 2, 4, 8, 16, 32, 64, 128]
    ensures (Xor(a, b) & m != 0) == ((a & m != 0) != (b & m != 0))
  {
  }

  /** Absorbing a block flips exactly the state's bits where the block has a one. */
  lemma XorBlockBits(s: State, b: seq<bv8>, k: nat, i: nat)
    requires |b| <= WIDTH && k < WIDTH && i < 8
    ensures ByteBits(XorBlock(s, b)[k])[i] == (ByteBits(s[k])[i] != (k < |b| && ByteBits(b[k])[i]))
  {
    hide ByteBits, Xor;
    if k < |b| {
      XorBits(s[k], b[k], i);
    }
  }

  // ---------- output, byte by byte ----------

  function Iterate(f: Permutation, n: nat, s: State): State {
    if n == 0 then s else f(Iterate(f, n - 1, s))
  }

  lemma {:induction false} IterateInside(f: Permutation, n: nat, s: State)
    ensures Iterate(f, n + 1, s) == Iterate(f, n, f(s))
  {
    if n > 0 {
      IterateInside(f, n - 1, s);
    }
  }

  /** Output byte i is in the state after as many permutations as there are whole rates before it. */
  lemma {:induction false} SqueezeAt(f: Permutation, rate: nat, s: State, n: nat, q: nat, r: nat)
    requires 0 < rate < WIDTH && r < rate && q * rate + r < n
    ensures Squeeze(f, rate, s, n)[q * rate + r] == Iterate(f, q, s)[r]
    decreases q
  {
    if q > 0 {
      PeelRate(q, rate);
      SqueezeAt(f, rate, f(s), n - rate, q - 1, r);
      IterateInside(f, q - 1, s);
    }
  }

  lemma PeelRate(q: nat, rate: nat)
    requires q > 0
    ensures q * rate == (q - 1) * rate + rate && (q - 1) * rate >= 0
  {
  }

  /** The domain suffix a delimiter byte stands for: none for Keccak, 01 for SHA-3, 1111 for SHAKE. */
  function Suffix(delim: bv8): seq<bool>
    requires delim in {0x01, 0x06, 0x1f}
  {
    if delim == 0x01 then [] else if delim == 0x06 then [false, true] else [true, true, true, true]
  }

  /** pad10*1. */
  function PadBits(zeros: nat): seq<bool> {
    [true] + seq(zeros, _ => false) + [true]
  }

  lemma {:induction false} ZeroBits(n: nat)
    ensures Bits(seq(n, _ => 0)) == seq(8 * n, _ => false)
  {
    if n > 0 {
      var s: seq<bv8> := seq(n, _ => 0);
      assert s[1..] == seq(n - 1, _ => 0);
      ZeroBits(n - 1);
      ZeroByte();
    }
  }

  lemma ZeroByte()
    ensures ByteBits(0) == seq(8, _ => false)
  {
  }

  lemma {:induction false} BitsAppend(s: seq<bv8>, t: seq<bv8>)
    ensures Bits(s + t) == Bits(s) + Bits(t)
  {
    if s == [] {
      assert s + t == t;
    } else {
      assert (s + t)[1..] == s[1..] + t;
      BitsAppend(s[1..], t);
    }
  }

  lemma DelimiterBits(delim: bv8)
    requires delim in {0x01, 0x06, 0x1f}
    ensures ByteBits(delim) == Suffix(delim) + [true] + seq(7 - |Suffix(delim)|, _ => false)
    ensures ByteBits(Xor(delim, 0x80)) == Suffix(delim) + [true] + seq(6 - |Suffix(delim)|, _ => false) + [true]
    ensures ByteBits(0x80) == seq(7, _ => false) + [true]
  {
  }

  lemma ZerosJoin(suffix: seq<bool>, m: nat, n: nat)
    ensures suffix + [true] + seq(m, _ => false) + seq(n, _ => false) + (seq(7, _ => false) + [true])
      == suffix + PadBits(m + n + 7)
  {
  }

  lemma LongTailBits(k: nat, delim: bv8)
    requires k > 1
    ensures Bits(Tail(k, delim)) == ByteBits(delim) + seq(8 * (k - 2), _ => false) + ByteBits(0x80)
  {
    hide ByteBits, Xor;
    var zeros: seq<bv8> := seq(k - 2, _ => 0);
    BitsAppend([delim] + zeros, [0x80]);
    BitsAppend([delim], zeros);
    ZeroBits(k - 2);
    OneByte(delim);
    OneByte(0x80);
  }

  lemma OneByte(b: bv8)
    ensures Bits([b]) == ByteBits(b)
  {
    assert Bits([b]) == ByteBits(b) + Bits([]);
  }

  /** The tail bytes are the domain suffix followed by pad10*1. */
  lemma TailBits(k: nat, delim: bv8)
    requires k > 0 && delim in {0x01, 0x06, 0x1f}
    ensures Bits(Tail(k, delim)) == Suffix(delim) + PadBits(8 * k - |Suffix(delim)| - 2)
  {
    hide ByteBits, Xor, Bits;
    DelimiterBits(delim);
    if k == 1 {
      OneByte(Xor(delim, 0x80));
      assert Tail(1, delim) == [Xor(delim, 0x80)];
    } else {
      LongTailBits(k, delim);
      ZerosJoin(Suffix(delim), 7 - |Suffix(delim)|, 8 * (k - 2));
    }
  }

  /** The bits absorbed: the message, the domain suffix and pad10*1 up to a whole number of rates; k bytes are added. */
  lemma PaddedBits(message: seq<bv8>, rate: nat, delim: bv8, k: nat)
    requires rate > 0 && delim in {0x01, 0x06, 0x1f} && k == rate - |message| % rate
    ensures 8 * k >= |Suffix(delim)| + 2 && (|message| + k) % rate == 0
    ensures Bits(Pad(message, rate, delim)) == Bits(message) + (Suffix(delim) + PadBits(8 * k - |Suffix(delim)| - 2))
  {
    hide Bits, Tail, PadBits, Pad;
    PadLength(|message|, rate);
    PadIs(message, rate, delim, k);
    BitsAppend(message, Tail(k, delim));
    TailBits(k, delim);
  }

  lemma PadIs(message: seq<bv8>, rate: nat, delim: bv8, k: nat)
    requires rate > 0 && k == rate - |message| % rate
    ensures k > 0 && Pad(message, rate, delim) == message + Tail(k, delim)
  {
    hide Tail;
  }

  // ---------- in place ----------

  method XorIn(a: array<bv8>, s: seq<bv8>)
    requires a.Length == WIDTH && |s| <= WIDTH
    modifies a
    ensures a[..] == XorBlock(old(a[..]), s)
  {
    for i := 0 to |s|
      invariant forall j :: 0 <= j < WIDTH ==> a[j] == if j < i then Xor(old(a[j]), s[j]) else old(a[j])
    {
      a[i] := Xor(a[i], s[i]);
    }
  }

  method SetOut(a: array<bv8>, out: array<bv8>, at: nat, len: nat)
    requires a.Length == WIDTH && len <= WIDTH && at + len <= out.Length && a != out
    modifies out
    ensures out[..at + len] == old(out[..at]) + a[..len]
    ensures forall k :: at + len <= k <= out.Length ==> out[k..] == old(out[k..])
  {
    for i := 0 to len
      invariant out[..at + i] == old(out[..at]) + a[..i] && out[at + i..] == old(out[..])[at + i..]
    {
      out[at + i] := a[i];
      assert out[..at + i + 1] == out[..at + i] + [a[i]];
    }
  }

  method Permute(f: Permutation, a: array<bv8>)
    requires a.Length == WIDTH
    modifies a
    ensures a[..] == f(old(a[..]))
  {
    var s := f(a[..]);
    forall i | 0 <= i < WIDTH {
      a[i] := s[i];
    }
    assert a[..] == s;
  }

  /** The state once the delimiter and the last bit are XORed in. */
  function Framed(s: State, n: nat, rate: nat, delim: bv8): State
    requires n < rate < WIDTH
  {
    var t := s[n := Xor(s[n], delim)];
    t[rate - 1 := Xor(t[rate - 1], 0x80)]
  }

  lemma LastByte(s: State, rest: seq<bv8>, rate: nat, delim: bv8, i: nat)
    requires |rest| < rate < WIDTH && i < WIDTH
    ensures XorBlock(Framed(s, |rest|, rate, delim), rest)[i] == XorBlock(s, rest + Tail(rate - |rest|, delim))[i]
  {
    hide Xor;
    var block := rest + Tail(rate - |rest|, delim);
    if |rest| <= i < rate {
      assert block[i] == Tail(rate - |rest|, delim)[i - |rest|];
      XorTwice(s[i], delim);
    } else if i < |rest| {
      assert block[i] == rest[i];
    }
  }

  /** The delimiter and the last bit may be XORed in before the last partial block. */
  lemma LastBlock(s: State, rest: seq<bv8>, rate: nat, delim: bv8)
    requires |rest| < rate < WIDTH
    ensures XorBlock(Framed(s, |rest|, rate, delim), rest) == XorBlock(s, rest + Tail(rate - |rest|, delim))
  {
    hide XorBlock, Framed, Tail;
    var l, r := XorBlock(Framed(s, |rest|, rate, delim), rest), XorBlock(s, rest + Tail(rate - |rest|, delim));
    forall i | 0 <= i < WIDTH
      ensures l[i] == r[i]
    {
      LastByte(s, rest, rate, delim, i);
    }
  }

  lemma XorTwice(x: bv8, d: bv8)
    ensures Xor(Xor(x, d), 0x80) == Xor(x, Xor(d, 0x80)) && Xor(x, 0) == x
  {
  }

  /** Absorbs the padded message in place. */
  method AbsorbInput(f: Permutation, a: array<bv8>, input: seq<bv8>, rate: nat, delim: bv8)
    requires 0 < rate < WIDTH && a.Length == WIDTH && a[..] == ZeroState()
    modifies a
    ensures a[..] == Absorb(f, rate, ZeroState(), Pad(input, rate, delim))
  {
    hide Absorb, ZeroState, XorBlock, Tail, Pad;
    var at := 0;
    NothingAbsorbed(f, rate, input);
    while |input| - at >= rate
      invariant at <= |input| && at % rate == 0 && a[..] == Absorb(f, rate, ZeroState(), input[..at])
    {
      AbsorbNext(f, rate, input, at);
      XorIn(a, input[at..at + rate]);
      Permute(f, a);
      at := at + rate;
    }
    ghost var absorbed: State := a[..];
    var rest := input[at..];
    a[|rest|] := Xor(a[|rest|], delim);
    a[rate - 1] := Xor(a[rate - 1], 0x80);
    assert a[..] == Framed(absorbed, |rest|, rate, delim);
    LastBlock(absorbed, rest, rate, delim);
    XorIn(a, rest);
    Permute(f, a);
    AbsorbLast(f, rate, delim, input, at);
  }

  /** Squeezes in place, one rate of output a permutation. */
  method SqueezeOutput(f: Permutation, a: array<bv8>, out: array<bv8>, outlen: nat, rate: nat)
    requires 0 < rate < WIDTH && a.Length == WIDTH && a != out && outlen <= out.Length
    modifies a, out
    ensures out[..outlen] == Squeeze(f, rate, old(a[..]), outlen) && out[outlen..] == old(out[outlen..])
  {
    hide Squeeze;
    var done: nat, left: nat := 0, outlen;
    ghost var full, after := Squeeze(f, rate, a[..], outlen), out[outlen..];
    while left >= rate
      invariant done + left == outlen && out[outlen..] == after
      invariant out[..done] == full[..done] && Squeeze(f, rate, a[..], left) == full[done..]
    {
      SqueezeMore(f, rate, a[..], full, done);
      SetOut(a, out, done, rate);
      Permute(f, a);
      done, left := done + rate, left - rate;
    }
    SqueezeEnd(f, rate, a[..], full, done);
    SetOut(a, out, done, left);
  }

  lemma SqueezeMore(f: Permutation, rate: nat, s: State, full: seq<bv8>, done: nat)
    requires 0 < rate < WIDTH && done + rate <= |full| && Squeeze(f, rate, s, |full| - done) == full[done..]
    ensures full[..done + rate] == full[..done] + s[..rate]
    ensures Squeeze(f, rate, f(s), |full| - done - rate) == full[done + rate..]
  {
    assert full[done..][..rate] == s[..rate] && full[done..][rate..] == full[done + rate..];
    assert full[..done + rate] == full[..done] + full[done..][..rate];
  }

  lemma SqueezeEnd(f: Permutation, rate: nat, s: State, full: seq<bv8>, done: nat)
    requires 0 < rate < WIDTH && done <= |full| < done + rate && Squeeze(f, rate, s, |full| - done) == full[done..]
    ensures full == full[..done] + s[..|full| - done]
  {
  }

  /** The whole hash: out receives outlen bytes, or -1 and nothing. */
  method HashInto(f: Permutation, out: array?<bv8>, outlen: nat, input: seq<bv8>, rate: nat, delim: bv8)
    returns (code: int)
    requires rate > 0 && (out != null ==> outlen <= out.Length)
    modifies out
    ensures code == if out == null || rate >= WIDTH then -1 else 0
    ensures out != null && code == -1 ==> out[..] == old(out[..])
    ensures code == 0 ==> out[..outlen] == Hash(f, rate, delim, input, outlen) && out[outlen..] == old(out[outlen..])
  {
    hide Absorb, Pad, Squeeze;
    if out == null || rate >= WIDTH {
      return -1;
    }
    var a := new bv8[WIDTH](_ => 0);
    assert a[..] == ZeroState();
    AbsorbInput(f, a, input, rate, delim);
    SqueezeOutput(f, a, out, outlen, rate);
    code := 0;
  }

  lemma NothingAbsorbed(f: Permutation, rate: nat, input: seq<bv8>)
    requires 0 < rate < WIDTH
    ensures Absorb(f, rate, ZeroState(), input[..0]) == ZeroState() && 0 % rate == 0
  {
  }

  lemma AbsorbNext(f: Permutation, rate: nat, input: seq<bv8>, at: nat)
    requires 0 < rate < WIDTH && at % rate == 0 && at + rate <= |input|
    ensures (at + rate) % rate == 0
    ensures Absorb(f, rate, ZeroState(), input[..at + rate]) ==
      f(XorBlock(Absorb(f, rate, ZeroState(), input[..at]), input[at..at + rate]))
  {
    Numbers.ModShift(at, 1, rate);
    AbsorbOne(f, rate, input[..at], input[at..at + rate]);
    assert input[..at + rate] == input[..at] + input[at..at + rate];
  }

  lemma AbsorbOne(f: Permutation, rate: nat, p: seq<bv8>, b: seq<bv8>)
    requires 0 < rate < WIDTH && |p| % rate == 0 && |b| == rate
    ensures Absorb(f, rate, ZeroState(), p + b) == f(XorBlock(Absorb(f, rate, ZeroState(), p), b))
  {
    AbsorbAppend(f, rate, ZeroState(), p, b);
    assert b[..rate] == b;
  }

  lemma AbsorbLast(f: Permutation, rate: nat, delim: bv8, input: seq<bv8>, at: nat)
    requires 0 < rate < WIDTH && at % rate == 0 && at <= |input| < at + rate
    ensures var last := input[at..] + Tail(rate - (|input| - at), delim);
      Absorb(f, rate, ZeroState(), Pad(input, rate, delim)) ==
        f(XorBlock(Absorb(f, rate, ZeroState(), input[..at]), last))
  {
    var last := input[at..] + Tail(rate - (|input| - at), delim);
    Numbers.DivModUnique(|input|, rate, at / rate, |input| - at);
    assert Pad(input, rate, delim) == input[..at] + last;
    AbsorbOne(f, rate, input[..at], last);
  }
}
