/** The bytecode loop of one call frame: program counter, stack, memory and 32-bit gas accounting, with nested
    calls. Answers of the state provider are arbitrary here; Contexts says what they are. */
module Interpreter {
  import opened Worlds
  import opened Contexts
  import opened Bytes
  import opened Options
  import Limbs
  import Numbers

  const HALF_32: int := 0x8000_0000
  const MEMORY_CAP: int := 1482849
  /** Bounds what one instruction charges by itself: a LOG4 over the largest memory, expansion included. */
  const MAX_CHARGE: int := 16_200_000
  /** Bounds what an opcode whose effect is not modelled charges besides memory: a copy of the largest window. */
  const OTHER_CHARGE: int := 150_000
  /** What warmAccount may add. */
  const TOUCH: int := 2500

  // ---------- memory gas ----------

  function Words(bytes: nat): nat {
    (bytes + 31) / 32
  }

  /** Appendix H of the Ethereum Yellow Paper. */
  function MemoryCost(words: nat): (c: nat) {
    words * words / 512 + 3 * words
  }

  lemma WordsCover(bytes: nat)
    ensures 32 * Words(bytes) - 32 < bytes <= 32 * Words(bytes) || (bytes == 0 && Words(bytes) == 0)
  {
  }

  /** 3 a word, and the square of the words for every 512, rounded down. */
  lemma CostFormula(words: nat)
    ensures var square := words * words;
      512 * (MemoryCost(words) - 3 * words) <= square < 512 * (MemoryCost(words) - 3 * words + 1)
  {
  }

  lemma CostMonotone(v: nat, w: nat)
    requires v <= w
    ensures MemoryCost(v) <= MemoryCost(w)
  {
    SquareMonotone(v, w);
  }

  lemma SquareMonotone(v: nat, w: nat)
    requires v <= w
    ensures v * v <= w * w
  {
    assert w * w - v * v == (w - v) * (w + v);
    Limbs.MulNonNegative(w - v, w + v);
  }

  /** Below the cap no 32-bit product in the cost computation overflows. */
  lemma CostBounds(bytes: nat)
    requires bytes <= MEMORY_CAP
    ensures Words(bytes) <= 46340 && Words(bytes) * Words(bytes) < HALF_32 && MemoryCost(Words(bytes)) <= 4_333_152
  {
    SquareMonotone(Words(bytes), 46340);
    CostMonotone(Words(bytes), 46340);
  }

  /** The cast of a 256-bit word to int keeps the low 32 bits, read as two's complement. */
  function ToInt(w: Word): int {
    var low := w % TWO_32;
    if low < HALF_32 then low else low - TWO_32
  }

  lemma ToIntExact(w: Word)
    ensures -HALF_32 <= ToInt(w) < HALF_32 && Numbers.Cong(ToInt(w), w, TWO_32)
  {
    Numbers.CongMod(w, TWO_32);
    if ToInt(w) < 0 {
      Numbers.CongFrom(ToInt(w), w % TWO_32, -1, TWO_32);
    }
  }

  /** Even if offset + size wraps at 2^256, an accepted window lies inside the capped memory. */
  lemma WindowFits(offset: Word, size: Word)
    requires (offset + size) % TWO_256 <= MEMORY_CAP && ToInt(offset) >= 0 && ToInt(size) >= 0
    ensures ToInt(offset) + ToInt(size) == (offset + size) % TWO_256
  {
    var end := (offset + size) % TWO_256;
    Numbers.CongMod(offset, TWO_32);
    Numbers.CongMod(size, TWO_32);
    Numbers.CongAdd(offset % TWO_32, offset, size % TWO_32, size, TWO_32);
    Numbers.CongFrom(offset + size, end, if offset + size < TWO_256 then 0 else TWO_256 / TWO_32, TWO_32);
    Numbers.DivModUnique(end, TWO_32, 0, end);
    Numbers.DivModUnique(ToInt(offset) + ToInt(size), TWO_32, 0, ToInt(offset) + ToInt(size));
  }

  // ---------- gas forwarded to a call ----------

  /** remainingGas: an unsigned 32-bit subtraction. */
  function RemainingGas(limit: int, used: int): Gas {
    (limit - used) % TWO_32
  }

  /** 63/64 of the remaining gas, with the product computed in 32 bits, clamped by the requested amount. */
  function ForwardedGas(remaining: Gas, requested: Word): Gas {
    var available := remaining * 63 % TWO_32 / 64;
    if requested <= available then requested else available
  }

  /** The out-of-gas test of callRaw refuses exactly the frames with nothing left; a frame that has overspent by
      k passes it with 2^32 - k gas to forward from. */
  lemma OverspentPasses(limit: Gas, used: Gas)
    ensures RemainingGas(limit, used) == 0 <==> used == limit
    ensures used > limit ==> RemainingGas(limit, used) == TWO_32 - (used - limit)
  {
  }

  /** Recursion always gets strictly less than what is left, even where the product wraps. */
  lemma ForwardedLess(remaining: Gas, requested: Word)
    requires remaining > 0
    ensures ForwardedGas(remaining, requested) < remaining
    ensures ForwardedGas(remaining, requested) < 0x400_0000
  {
    var product := remaining * 63;
    assert product % TWO_32 <= product;
  }

  /** What is forwarded is the request, or 63/64 of what is left, rounded down, for as long as the product by 63 does
      not wrap. */
  lemma ForwardedExact(remaining: Gas, requested: Word)
    ensures var f, product := ForwardedGas(remaining, requested), remaining * 63;
      && f <= requested
      && (product < TWO_32 ==> 64 * f <= product && (f == requested || product < 64 * (f + 1)))
      && (product >= TWO_32 ==>
            64 * f <= product % TWO_32 && (f == requested || product % TWO_32 < 64 * (f + 1)))
  {
  }

  lemma RemainingExact(limit: Gas, used: Gas)
    ensures used <= limit ==> RemainingGas(limit, used) == limit - used
    ensures (used + RemainingGas(limit, used)) % TWO_32 == limit
  {
  }

  /** callPrecompiled's charge: an unknown contract takes all that is left. */
  function PrecompiledCost(index: nat, argsSize: nat, retSize: nat, gas: Gas): nat {
    if index == 1 then 3000
    else if index == 2 then 60 + 12 * ((argsSize + 31) / 32)
    else if index == 4 then 15 + 3 * (((if argsSize > retSize then retSize else argsSize) + 31) / 32)
    else gas
  }

  predicate Known(index: nat) {
    index == 1 || index == 2 || index == 4
  }

  lemma CostOf(index: nat, argsSize: nat, retSize: nat, gas: Gas)
    requires argsSize <= MEMORY_CAP
    ensures Known(index) ==> 15 <= PrecompiledCost(index, argsSize, retSize, gas) <= 560_000
    ensures PrecompiledCost(index, argsSize, retSize, gas) ==
      if Known(index) then PrecompiledCost(index, argsSize, retSize, 0) else gas
  {
  }

  /** ecrecover, sha256 and identity, the last two by the words they read. */
  lemma PrecompiledCosts(argsSize: nat, retSize: nat, gas: Gas, words: nat)
    ensures PrecompiledCost(1, argsSize, retSize, gas) == 3000
    ensures argsSize <= 32 * words < argsSize + 32 ==> PrecompiledCost(2, argsSize, retSize, gas) == 60 + 12 * words
    ensures argsSize <= retSize && argsSize <= 32 * words < argsSize + 32 ==>
      PrecompiledCost(4, argsSize, retSize, gas) == 15 + 3 * words
    ensures retSize <= argsSize && retSize <= 32 * words < retSize + 32 ==>
      PrecompiledCost(4, argsSize, retSize, gas) == 15 + 3 * words
    ensures forall i: nat :: i != 1 && i != 2 && i != 4 ==>
      !Known(i) && PrecompiledCost(i, argsSize, retSize, gas) == gas
  {
  }

  // ---------- big-endian words in memory ----------

  lemma WordBytes()
    ensures Numbers.Pow(256, 32) == TWO_256
  {
    Numbers.PowSquare(256, 16);
    Numbers.PowSquare(0x1_0000, 8);
    Numbers.PowSquare(0x1_0000_0000, 4);
    Numbers.PowSquare(0x1_0000_0000_0000_0000, 2);
    Numbers.PowSquare(0x1_0000_0000_0000_0000_0000_0000_0000_0000, 1);
  }

  function ReadWord(s: seq<Byte>): Word
    requires |s| <= 32
  {
    FromBytesBound(s);
    WordBytes();
    PowMonotone(|s|, 32);
    FromBytes(s)
  }

  /** What MSTORE writes, MLOAD reads back. */
  lemma StoredWord(w: Word)
    ensures ReadWord(ToBytes(w, 32)) == w
  {
    WordBytes();
    BytesRoundTrip(w, 32);
  }

  function Alu(op: Byte, a: Word, b: Word): Word {
    if op == 0x01 then (a + b) % TWO_256
    else if op == 0x03 then (a - b) % TWO_256
    else if a < b then 1 else 0
  }

  lemma AluUndone(op: Byte, a: Word, b: Word)
    ensures op == 0x01 ==> (Alu(op, a, b) - b) % TWO_256 == a
    ensures op == 0x03 ==> (Alu(op, a, b) + b) % TWO_256 == a
  {
    if op == 0x01 {
      var k := if a + b < TWO_256 then 0 else 1;
      Numbers.DivModUnique(a + b, TWO_256, k, a + b - k * TWO_256);
      Numbers.DivModUnique(Alu(op, a, b) - b, TWO_256, 0 - k, a);
    } else if op == 0x03 {
      var k := if a < b then 1 else 0;
      Numbers.DivModUnique(a - b, TWO_256, 0 - k, a - b + k * TWO_256);
      Numbers.DivModUnique(Alu(op, a, b) + b, TWO_256, k, a);
    }
  }

  ghost predicate SmallCodes(codes: Address -> seq<Byte>) {
    forall a: Address :: |codes(a)| < HALF_32
  }

  lemma CodeIsSmall(codes: Address -> seq<Byte>, a: Address)
    requires SmallCodes(codes)
    ensures |codes(a)| < HALF_32
  {
  }

  // ---------- copying into memory ----------

  /** Byte i, or zero past either end. */
  function ByteOf(s: seq<Byte>, i: int): Byte {
    if 0 <= i < |s| then s[i] else 0
  }

  function Window(s: seq<Byte>, from: int, n: nat): (w: seq<Byte>)
    ensures |w| == n && forall i :: 0 <= i < n ==> w[i] == ByteOf(s, from + i)
  {
    seq<Byte>(n, i => ByteOf(s, from + i))
  }

  /** The window of size bytes at dst holds the source from src on, and the rest is as before, all with zero fill. */
  ghost predicate Copied(now: seq<Byte>, was: seq<Byte>, source: seq<Byte>, dst: int, src: int, size: int) {
    forall i :: 0 <= i < |now| ==>
      now[i] == if dst <= i < dst + size then ByteOf(source, src + i - dst) else ByteOf(was, i)
  }

  ghost predicate Extends(grown: seq<Byte>, was: seq<Byte>) {
    |was| <= |grown| && forall i :: 0 <= i < |grown| ==> grown[i] == ByteOf(was, i)
  }

  lemma CopyResult(now: seq<Byte>, grown: seq<Byte>, was: seq<Byte>, from: seq<Byte>, source: seq<Byte>,
      dst: nat, src: nat, bytes: seq<Byte>)
    requires Extends(grown, was) && dst + |bytes| <= |grown|
    requires (from == grown && source == was) || from == source
    requires now == grown[..dst] + bytes + grown[dst + |bytes|..]
    requires forall i :: 0 <= i < |bytes| ==> bytes[i] == ByteOf(from, src + i)
    ensures Copied(now, was, source, dst, src, |bytes|)
  {
    forall i | 0 <= i < |now|
      ensures now[i] == if dst <= i < dst + |bytes| then ByteOf(source, src + i - dst) else ByteOf(was, i)
    {
      if dst <= i < dst + |bytes| {
        assert now[i] == bytes[i - dst];
        assert ByteOf(from, src + (i - dst)) == ByteOf(source, src + i - dst);
      } else {
        assert now[i] == grown[i];
      }
    }
  }

  // ---------- the state of a frame ----------

  datatype Tick =
    | Continue                                // success, no return data pointer
    | Return(data: seq<Byte>)                 // success with return data
    | Failure(data: seq<Byte>)
    | Exhausted                               // one more overspent call than the run was allowed

  /** Program counter (already past the opcode), stack and memory. */
  datatype View = View(pc: nat, stack: seq<Word>, memory: seq<Byte>)

  datatype Moment = Moment(view: View, gas: nat)

  function Arg(v: View, i: nat): Word
    requires i < |v.stack|
  {
    v.stack[|v.stack| - 1 - i]
  }

  function Below(v: View, n: nat): seq<Word>
    requires n <= |v.stack|
  {
    v.stack[..|v.stack| - n]
  }

  // ---------- the arguments of a call ----------

  datatype CallArgs = CallArgs(requested: Word, target: Address, value: Word,
    argsOffset: Word, argsSize: Word, retOffset: Word, retSize: Word)

  /** CALL, CALLCODE, DELEGATECALL and STATICCALL. */
  predicate IsCall(op: Byte) {
    op == 0xF1 || op == 0xF2 || op == 0xF4 || op == 0xFA
  }

  predicate TakesValue(op: Byte) {
    op == 0xF1 || op == 0xF2
  }

  function Arity(op: Byte): nat {
    if TakesValue(op) then 7 else 6
  }

  function TopArgs(op: Byte, v: View): CallArgs
    requires |v.stack| >= Arity(op)
  {
    var n := Arity(op) - 4;
    CallArgs(Arg(v, 0), Arg(v, 1) % TWO_160, if TakesValue(op) then Arg(v, 2) else 0,
             Arg(v, n), Arg(v, n + 1), Arg(v, n + 2), Arg(v, n + 3))
  }

  /** The frame a call runs in: DELEGATECALL keeps the address. */
  function CalleeAddress(op: Byte, address: Address, target: Address): Address {
    if op == 0xF4 then address else target
  }

  /** The operands of a call, written as the stack that holds them, the top last. */
  lemma OperandOrder(op: Byte, pc: nat, below: seq<Word>, memory: seq<Byte>, gas: Word, target: Word, value: Word,
      argsOffset: Word, argsSize: Word, retOffset: Word, retSize: Word)
    ensures op == 0xF1 || op == 0xF2 ==>
      TopArgs(op, View(pc, below + [retSize, retOffset, argsSize, argsOffset, value, target, gas], memory))
        == CallArgs(gas, target % TWO_160, value, argsOffset, argsSize, retOffset, retSize)
    ensures op == 0xF4 || op == 0xFA ==>
      TopArgs(op, View(pc, below + [retSize, retOffset, argsSize, argsOffset, target, gas], memory))
        == CallArgs(gas, target % TWO_160, 0, argsOffset, argsSize, retOffset, retSize)
  {
  }

  datatype Expansion = Expansion(ok: bool, size: nat, gas: int)

  /** expandMemory on a memory of this size. */
  function Expand(size: nat, gas: int, limit: int, offset: Word, length: Word): Expansion {
    var end := ToInt(offset) + ToInt(length);
    if (offset + length) % TWO_256 > MEMORY_CAP || ToInt(offset) < 0 || ToInt(length) < 0
    then Expansion(false, size, gas)
    else if end <= size then Expansion(true, size, gas)
    else
      var total := gas + MemoryCost(Words(end)) - MemoryCost(Words(size));
      if total <= limit then Expansion(true, end, total) else Expansion(false, size, total)
  }

  /** Expansions one after the other, as long as they succeed. */
  function ExpandAll(size: nat, gas: int, limit: int, windows: seq<(Word, Word)>): Expansion
    decreases |windows|
  {
    if windows == [] then Expansion(true, size, gas)
    else
      var e := Expand(size, gas, limit, windows[0].0, windows[0].1);
      if e.ok then ExpandAll(e.size, e.gas, limit, windows[1..]) else e
  }

  /** Over any sequence of successful expansions the charges telescope. */
  lemma {:induction false} ExpansionsTelescope(size: nat, gas: int, limit: int, windows: seq<(Word, Word)>)
    requires ExpandAll(size, gas, limit, windows).ok
    ensures var e := ExpandAll(size, gas, limit, windows);
      e.gas - gas == MemoryCost(Words(e.size)) - MemoryCost(Words(size)) && e.size >= size
    decreases |windows|
  {
    if windows != [] {
      var e := Expand(size, gas, limit, windows[0].0, windows[0].1);
      ExpansionsTelescope(e.size, e.gas, limit, windows[1..]);
    }
  }

  /** A call's own charges up to the lookup of the callee's code. */
  function Windows(op: Byte, size: nat, gas: int, limit: int, args: CallArgs): Expansion {
    var first := Expand(size, gas + (if op == 0xF2 then 0 else 100), limit, args.argsOffset, args.argsSize);
    if first.ok then Expand(first.size, first.gas, limit, args.retOffset, args.retSize) else first
  }

  function EntryGas(op: Byte, size: nat, gas: int, limit: int, args: CallArgs, touched: bool): int {
    Windows(op, size, gas, limit, args).gas + (if touched then TOUCH else 0)
  }

  /** With empty windows a CALL, DELEGATECALL or STATICCALL charges 100 by itself, and a CALLCODE nothing. */
  lemma OwnCharges(op: Byte, size: nat, gas: int, limit: int, args: CallArgs)
    requires args.argsOffset == args.argsSize == args.retOffset == args.retSize == 0
    ensures Windows(op, size, gas, limit, args).ok
    ensures op == 0xF1 || op == 0xF4 || op == 0xFA ==> Windows(op, size, gas, limit, args).gas == gas + 100
    ensures op == 0xF2 ==> Windows(op, size, gas, limit, args).gas == gas
  {
  }

  /** The callee's code is looked up: both windows are accepted, and the callee is no precompiled contract. */
  ghost predicate Reaches(op: Byte, size: nat, gas: int, limit: int, args: CallArgs) {
    IsCall(op) && Windows(op, size, gas, limit, args).ok && args.target >= 16
  }

  /** callRaw is entered with more gas used than the limit, without a check that sees it. */
  ghost predicate EntersOverspent(op: Byte, size: nat, gas: int, limit: int, args: CallArgs, touched: bool) {
    Reaches(op, size, gas, limit, args) && EntryGas(op, size, gas, limit, args, touched) > limit
  }

  lemma ExpandBound(size: nat, gas: nat, limit: int, offset: Word, length: Word)
    ensures var e := Expand(size, gas, limit, offset, length);
      && size <= e.size && gas <= e.gas <= gas + 4_333_152 && (e.gas <= limit || !e.ok || e.gas == gas)
  {
    var end := ToInt(offset) + ToInt(length);
    if (offset + length) % TWO_256 <= MEMORY_CAP && ToInt(offset) >= 0 && ToInt(length) >= 0 && end > size {
      WindowFits(offset, length);
      CostBounds(end);
      CostMonotone(Words(size), Words(end));
    }
  }

  lemma WindowsBound(op: Byte, size: nat, gas: nat, limit: int, args: CallArgs)
    ensures var w := Windows(op, size, gas, limit, args);
      && size <= w.size && gas <= w.gas <= gas + 100 + 2 * 4_333_152
  {
    hide Expand;
    var first := Expand(size, gas + (if op == 0xF2 then 0 else 100), limit, args.argsOffset, args.argsSize);
    ExpandBound(size, gas + (if op == 0xF2 then 0 else 100), limit, args.argsOffset, args.argsSize);
    ExpandBound(first.size, first.gas, limit, args.retOffset, args.retSize);
  }

  /** Memory grown to a size, with zero fill. */
  function Grown(s: seq<Byte>, size: nat): (g: seq<Byte>)
    ensures |g| == if size > |s| then size else |s|
  {
    if size > |s| then s + seq<Byte>(size - |s|, _ => 0) else s
  }

  lemma GrownTwice(s: seq<Byte>, m: nat, n: nat)
    requires |s| <= m <= n
    ensures Grown(Grown(s, m), n) == Grown(s, n)
  {
  }

  lemma GrownExtends(s: seq<Byte>, size: nat)
    ensures Extends(Grown(s, size), s)
  {
  }

  /** Bytes written over a window that fits. */
  function Patched(s: seq<Byte>, offset: int, bytes: seq<Byte>): (p: seq<Byte>)
    ensures |p| == |s|
  {
    if 0 <= offset && offset + |bytes| <= |s| then s[..offset] + bytes + s[offset + |bytes|..] else s
  }

  // ---------- what one instruction does ----------

  /** ADD, SUB and LT, the top of the stack being the first operand: the sum less the second operand is the first,
      the difference and the second operand make the first. */
  ghost predicate BinaryDone(op: Byte, was: View, now: View) {
    |was.stack| >= 2 ==>
      var a, b := Arg(was, 0), Arg(was, 1);
      && now.stack != [] && now == was.(stack := Below(was, 2) + [Arg(now, 0)])
      && var w := Arg(now, 0);
      && (op == 0x01 ==> (w - b) % TWO_256 == a)
      && (op == 0x03 ==> (w + b) % TWO_256 == a)
      && (op == 0x10 ==> w == if a < b then 1 else 0)
  }

  /** Execution only ever continues at a JUMPDEST byte or at the next instruction. */
  ghost predicate JumpDone(conditional: bool, code: seq<Byte>, was: View, now: View, t: Tick) {
    var k := if conditional then 2 else 1;
    |was.stack| >= k ==>
      var taken := !conditional || Arg(was, 1) != 0;
      var dst := Arg(was, 0);
      && (t == Continue <==> !taken || (dst < |code| && code[dst] == 0x5b))
      && (t == Continue ==> now == View(if taken then dst else was.pc, Below(was, k), was.memory))
  }

  ghost predicate PushDone(count: nat, code: seq<Byte>, was: View, now: View)
    requires count <= 32
  {
    was.pc + count <= |code| ==>
      now == View(was.pc + count, was.stack + [ReadWord(code[was.pc..was.pc + count])], was.memory)
  }

  ghost predicate DupDone(count: nat, was: View, now: View, t: Tick)
    requires count >= 1
  {
    if |was.stack| < count then t == Failure([])
    else t == Continue && now == was.(stack := was.stack + [Arg(was, count - 1)])
  }

  ghost predicate SwapDone(n: nat, was: View, now: View)
    requires n >= 1
  {
    var k := |was.stack|;
    k > n ==> now == was.(stack := was.stack[k - 1 - n := Arg(was, 0)][k - 1 := Arg(was, n)])
  }

  ghost predicate MLoadDone(was: View, now: View) {
    was.stack != [] ==>
      var o := ToInt(Arg(was, 0));
      && 0 <= o && o + 32 <= |now.memory| && Extends(now.memory, was.memory)
      && now.pc == was.pc && now.stack == Below(was, 1) + [ReadWord(now.memory[o..o + 32])]
  }

  ghost predicate MStoreDone(was: View, now: View) {
    |was.stack| >= 2 ==>
      var o := ToInt(Arg(was, 0));
      && 0 <= o && o + 32 <= |now.memory| && |was.memory| <= |now.memory|
      && now.pc == was.pc && now.stack == Below(was, 2)
      && Copied(now.memory, was.memory, ToBytes(Arg(was, 1), 32), o, 0, 32)
  }

  ghost predicate CopyDone(fromMemory: bool, code: seq<Byte>, was: View, now: View) {
    |was.stack| >= 3 ==>
      var dst, src, size := ToInt(Arg(was, 0)), ToInt(Arg(was, 1)), ToInt(Arg(was, 2));
      && 0 <= dst && 0 <= size && dst + size <= |now.memory| && |was.memory| <= |now.memory|
      && now.pc == was.pc && now.stack == Below(was, 3)
      && (src >= 0 ==> Copied(now.memory, was.memory, if fromMemory then was.memory else code, dst, src, size))
  }

  /** A refused memory window is no return data, and execution goes on. */
  ghost predicate ReturnDone(limit: Gas, from: Moment, to: Moment, t: Tick) {
    hide Expand;
    && (t == Continue || t.Return?)
    && (|from.view.stack| >= 2 ==>
          var a, b := Arg(from.view, 0), Arg(from.view, 1);
          var e := Expand(|from.view.memory|, from.gas, limit, a, b);
          var lo := ToInt(a);
          && (t == Continue <==> !e.ok)
          && to.view == View(from.view.pc, Below(from.view, 2), Grown(from.view.memory, e.size)) && to.gas == e.gas
          && (e.ok ==> 0 <= lo && lo + b % 0x1_0000 <= |to.view.memory|
                       && t == Return(to.view.memory[lo..lo + b % 0x1_0000])))
  }

  /** MLOAD and MSTORE go on exactly if their window is accepted. */
  ghost predicate Accessed(operands: nat, limit: Gas, from: Moment, to: Moment, t: Tick)
    requires operands > 0
  {
    |from.view.stack| >= operands ==>
      var e := Expand(|from.view.memory|, from.gas + 3, limit, Arg(from.view, 0), 32);
      && (t == Continue <==> e.ok) && to.gas == e.gas && |to.view.memory| == e.size
  }

  /** What an instruction with one charge pays; 0 stands for the others. */
  function FixedGas(op: Byte): nat {
    if op == 0x01 || op == 0x03 || op == 0x10 then 3
    else if op == 0x30 || op == 0x50 || 0x58 <= op <= 0x5A || op == 0x5F then 2
    else if op == 0x5B then 1
    else if op == 0x55 then 100
    else if op == 0x56 then 8
    else if op == 0x57 then 10
    else if 0x60 <= op <= 0x9F then 3
    else 0
  }

  /** Removes its operands and pushes results, leaving counter and memory alone. */
  ghost predicate StackOnly(operands: nat, results: nat, was: View, now: View) {
    |was.stack| >= operands ==>
      && now.pc == was.pc && now.memory == was.memory
      && |now.stack| == |was.stack| - operands + results && Below(now, results) == Below(was, operands)
  }

  ghost predicate LogDone(topics: nat, limit: Gas, from: Moment, to: Moment, t: Tick) {
    |from.view.stack| >= topics + 2 ==>
      var size := Arg(from.view, 1);
      var e := Expand(|from.view.memory|, from.gas, limit, Arg(from.view, 0), size);
      && (t == Continue <==> e.ok)
      && to.gas == e.gas + (if e.ok then 375 + 375 * topics + 8 * ToInt(size) else 0)
      && (e.ok ==> to.view == View(from.view.pc, Below(from.view, topics + 2), Grown(from.view.memory, e.size)))
  }

  /** Operands above 14000 come back as the data themselves. */
  ghost predicate RevertDone(limit: Gas, from: Moment, to: Moment, t: Tick) {
    hide Expand;
    && t.Failure?
    && (|from.view.stack| >= 2 ==>
          var a, b := Arg(from.view, 0), Arg(from.view, 1);
          var e := Expand(|from.view.memory|, from.gas, limit, a, b);
          var lo := ToInt(a);
          if a > 14000 || b > 14000 then
            t == Failure(ToBytes(a, 32) + ToBytes(b, 32)) && to.gas == from.gas
          else
            && to.gas == e.gas && to.view.memory == Grown(from.view.memory, e.size)
            && (if e.ok then 0 <= lo && lo + b % 0x1_0000 <= |to.view.memory|
                             && t == Failure(to.view.memory[lo..lo + b % 0x1_0000])
                else t == Failure([])))
  }

  /** Room for the source comes first if a copy within memory reads higher than it writes. */
  function CopyRoom(fromMemory: bool, size: nat, gas: int, limit: int, dst: Word, src: Word, length: Word): Expansion {
    var first := if fromMemory && src > dst then Expand(size, gas, limit, src, length) else Expansion(true, size, gas);
    if first.ok then Expand(first.size, first.gas, limit, dst, length) else first
  }

  ghost predicate CopyCharged(fromMemory: bool, limit: Gas, from: Moment, to: Moment, t: Tick) {
    |from.view.stack| >= 3 ==>
      var length := Arg(from.view, 2);
      var dst, src := Arg(from.view, 0), Arg(from.view, 1);
      var e := CopyRoom(fromMemory, |from.view.memory|, from.gas + 3, limit, dst, src, length);
      && (t == Continue <==> e.ok) && |to.view.memory| == e.size
      && to.gas == e.gas + (if e.ok && ToInt(length) >= 0 then 3 * Words(ToInt(length)) else 0)
  }

  /** POP, PC, MSIZE and GAS. */
  ghost predicate SimpleDone(op: Byte, limit: Gas, was: View, now: View, gas: nat) {
    if op == 0x50 then was.stack != [] ==> now == was.(stack := Below(was, 1))
    else
      was.pc > 0 ==>
        now == was.(stack := was.stack +
          [if op == 0x58 then (was.pc - 1) % TWO_256
           else if op == 0x59 then |was.memory| % TWO_256
           else RemainingGas(limit, gas)])
  }

  /** The opcodes that fail at once. */
  predicate Undefined(op: Byte) {
    || 0x0C <= op <= 0x0F || op == 0x1E || op == 0x1F || 0x21 <= op <= 0x2F || op == 0x3F || op == 0x40
    || 0x49 <= op <= 0x4F || 0xA5 <= op <= 0xF0 || (0xF5 <= op <= 0xF9) || 0xFB <= op <= 0xFC || op == 0xFF
  }

  /** The effect of an instruction that is no call on program counter, stack, memory and gas. */
  ghost predicate Instruction(op: Byte, code: seq<Byte>, address: Address, limit: Gas, from: Moment, to: Moment,
      t: Tick)
  {
    var was, now := from.view, to.view;
    && t != Exhausted
    && (if op == 0xFE then to.gas == limit else from.gas <= to.gas <= from.gas + MAX_CHARGE)
    && (FixedGas(op) > 0 && t == Continue ==> to.gas == from.gas + FixedGas(op))
    && (op == 0x30 ==> t == Continue && now == was.(stack := was.stack + [address]))
    && (op == 0x31 || op == 0x54 ==> t == Continue && StackOnly(1, 1, was, now))
    && (op == 0x55 ==> (t == Continue && StackOnly(2, 0, was, now)) || t == Failure([]))
    && (op == 0x31 || op == 0x54 ==>
          to.gas == from.gas + 100 || to.gas == from.gas + 100 + if op == 0x54 then 2000 else TOUCH)
    && (op == 0x50 || 0x58 <= op <= 0x5A ==> t == Continue && SimpleDone(op, limit, was, now, to.gas))
    && (0xA0 <= op <= 0xA4 ==> (t == Continue || t == Failure([])) && LogDone(op - 0xA0, limit, from, to, t))
    && (op == 0x00 ==> t == Return([]))
    && (op == 0x01 || op == 0x03 || op == 0x10 ==> t == Continue && BinaryDone(op, was, now))
    && (op == 0x39 || op == 0x5E ==> (t == Continue && CopyDone(op == 0x5E, code, was, now)) || t == Failure([]))
    && (op == 0x39 || op == 0x5E ==> CopyCharged(op == 0x5E, limit, from, to, t))
    && (op == 0x51 ==> (t == Continue && MLoadDone(was, now)) || t == Failure([]))
    && (op == 0x51 ==> Accessed(1, limit, from, to, t))
    && (op == 0x52 ==> (t == Continue && MStoreDone(was, now)) || t == Failure([]))
    && (op == 0x52 ==> Accessed(2, limit, from, to, t))
    && (op == 0x56 || op == 0x57 ==> (t == Continue || t == Failure([])) && JumpDone(op == 0x57, code, was, now, t))
    && (op == 0x5B ==> t == Continue && now == was)
    && (0x5F <= op <= 0x7F ==> t == Continue && PushDone(op - 0x5F, code, was, now))
    && (0x80 <= op <= 0x8F ==> DupDone(op - 0x7F, was, now, t))
    && (0x90 <= op <= 0x9F ==> t == Continue && SwapDone(op - 0x8F, was, now))
    && (op == 0xF3 ==> ReturnDone(limit, from, to, t))
    && (op == 0xFD ==> RevertDone(limit, from, to, t))
    && (op == 0xFE ==> t == Failure([]) && now == was)
    && (Undefined(op) ==> t == Failure([]) && to == from)
  }

  /** The charges of instructions that cost the same every time. */
  lemma InstructionCosts(op: Byte, code: seq<Byte>, address: Address, limit: Gas, from: Moment, to: Moment)
    requires Instruction(op, code, address, limit, from, to, Continue)
    ensures op in [0x01, 0x03, 0x10] || 0x60 <= op <= 0x9F ==> to.gas == from.gas + 3
    ensures op in [0x30, 0x50, 0x58, 0x59, 0x5A, 0x5F] ==> to.gas == from.gas + 2
    ensures op == 0x5B ==> to.gas == from.gas + 1
    ensures op == 0x55 ==> to.gas == from.gas + 100
    ensures op == 0x56 ==> to.gas == from.gas + 8
    ensures op == 0x57 ==> to.gas == from.gas + 10
  {
  }

  /** Valid opcodes whose effect is not modelled; the rest of the opcodes fail. */
  predicate OtherOpcode(op: Byte) {
    || op == 0x02 || 0x04 <= op <= 0x0B || 0x11 <= op <= 0x1D || op == 0x20 || 0x32 <= op <= 0x38
    || 0x3A <= op <= 0x3E || 0x41 <= op <= 0x48 || op == 0x53 || op == 0x5C || op == 0x5D
  }

  // ---------- runs of a frame ----------

  /** A call of a tick: its operands, whether the callee's address was charged for, whether callRaw was entered
      overspent, whether taking over the callee's gas wrapped the counter, how many of the callee's code lookups
      charged this frame as well, and the callee's run, if it came to that. */
  datatype CallEvent = CallEvent(args: CallArgs, touched: bool, own: bool, wrapped: bool, charged: nat,
    inner: Option<FrameRun>)

  /** A tick of a frame: the state it found, whether it looked up code, its call and its outcome. */
  datatype Visit = Visit(moment: Moment, looks: bool, call: Option<CallEvent>, tick: Tick)

  datatype FrameRun = FrameRun(start: Moment, visits: seq<Visit>, end: Moment, outcome: Tick)

  function Start(): Moment {
    Moment(View(0, [], []), 0)
  }

  function Last(visits: seq<Visit>): Visit
    requires visits != []
  {
    visits[|visits| - 1]
  }

  function Init(visits: seq<Visit>): seq<Visit>
    requires visits != []
  {
    visits[..|visits| - 1]
  }

  /** Overspent calls and wraps of the gas counter, nested frames included. */
  function Events(visits: seq<Visit>): nat
    decreases visits
  {
    if visits == [] then 0 else Events(Init(visits)) + VisitEvents(Last(visits))
  }

  function VisitEvents(v: Visit): nat
    decreases v
  {
    if v.call.Some? then CallEvents(v.call.value) else 0
  }

  function CallEvents(e: CallEvent): nat
    decreases e
  {
    (if e.own then 1 else 0) + (if e.wrapped then 1 else 0)
    + if e.inner.Some? then Events(e.inner.value.visits) else 0
  }

  /** Code lookups, nested frames included. */
  function Lookups(visits: seq<Visit>): nat
    decreases visits
  {
    if visits == [] then 0 else Lookups(Init(visits)) + VisitLookups(Last(visits))
  }

  function VisitLookups(v: Visit): nat
    decreases v
  {
    (if v.looks then 1 else 0) + if v.call.Some? then CallLookups(v.call.value) else 0
  }

  function CallLookups(e: CallEvent): nat
    decreases e
  {
    if e.inner.Some? then Lookups(e.inner.value.visits) else 0
  }

  /** What the last tick of a frame, and of the frames nested in it, had charged by nested lookups. */
  function Passed(visits: seq<Visit>): nat
    decreases visits
  {
    if visits == [] then 0 else VisitPassed(Last(visits))
  }

  function VisitPassed(v: Visit): nat
    decreases v
  {
    if v.call.Some? then CallPassed(v.call.value) else 0
  }

  function CallPassed(e: CallEvent): nat
    decreases e
  {
    TOUCH * e.charged + if e.inner.Some? then Passed(e.inner.value.visits) else 0
  }

  /** A frame's run: each tick does what its instruction does to the state the one before left, and all but the last
      go on within the limit. */
  ghost predicate RunOk(codes: Address -> seq<Byte>, code: seq<Byte>, address: Address, limit: Gas, r: FrameRun)
    decreases r, 0
  {
    Steps(codes, code, address, limit, r.start, r.visits, r.end) && Ended(code, limit, r)
  }

  ghost predicate Steps(codes: Address -> seq<Byte>, code: seq<Byte>, address: Address, limit: Gas, start: Moment,
      visits: seq<Visit>, end: Moment)
    decreases visits, 1
  {
    if visits == [] then end == start
    else
      var v := Last(visits);
      && Steps(codes, code, address, limit, start, Init(visits), v.moment)
      && (Init(visits) != [] ==> Last(Init(visits)).tick == Continue && v.moment.gas < limit)
      && VisitOk(codes, code, address, limit, v, end)
  }

  /** The outcome is the last tick's, or running out of gas after it. A frame without a tick has no code, or could not
      be paid for. */
  ghost predicate Ended(code: seq<Byte>, limit: Gas, r: FrameRun) {
    if r.visits == [] then r.outcome == Failure([]) || (code == [] && r.outcome == Return([]))
    else if Last(r.visits).tick == Continue then r.end.gas >= limit && r.outcome == Failure([])
    else r.outcome == Last(r.visits).tick
  }

  /** A frame with nothing to pay, or whose payment was made. */
  ghost predicate Paid(code: seq<Byte>, r: FrameRun) {
    if code == [] then r.outcome == Return([]) else r.visits != []
  }

  ghost predicate VisitOk(codes: Address -> seq<Byte>, code: seq<Byte>, address: Address, limit: Gas, v: Visit,
      next: Moment)
    decreases v, 1
  {
    var m := v.moment;
    if m.view.pc < |code| then
      Performed(codes, code[m.view.pc], code, address, limit, Moment(m.view.(pc := m.view.pc + 1), m.gas),
                v.looks, v.call, next, v.tick)
    else v.tick == Return([]) && next == m && !v.looks && v.call == None
  }

  /** EXTCODESIZE and EXTCODECOPY, beside calls, look up code. */
  ghost predicate Performed(codes: Address -> seq<Byte>, op: Byte, code: seq<Byte>, address: Address, limit: Gas,
      m: Moment, looks: bool, call: Option<CallEvent>, next: Moment, t: Tick)
    decreases call, 1
  {
    if IsCall(op) then
      && call.Some? && CallOk(codes, op, address, limit, m, call.value, next, t)
      && (looks <==> Reaches(op, |m.view.memory|, m.gas, limit, call.value.args))
    else
      call == None && (looks <==> op == 0x3B || op == 0x3C) && Instruction(op, code, address, limit, m, next, t)
  }

  /** A call fails if a window is refused or nothing is left of the limit; a precompiled contract runs in the frame
      itself; else the callee's run is nested here, and its gas, flag and data are taken over. */
  ghost predicate CallOk(codes: Address -> seq<Byte>, op: Byte, address: Address, limit: Gas, m: Moment, e: CallEvent,
      next: Moment, t: Tick)
    decreases e, 1
  {
    var w := Windows(op, |m.view.memory|, m.gas, limit, e.args);
    var entry := EntryGas(op, |m.view.memory|, m.gas, limit, e.args, e.touched);
    && (|m.view.stack| >= Arity(op) ==> e.args == TopArgs(op, m.view))
    && (e.own <==> EntersOverspent(op, |m.view.memory|, m.gas, limit, e.args, e.touched))
    && next.view.pc == m.view.pc
    && if !w.ok then NotEntered(e) && t == Failure([]) && next.gas == w.gas
       else if e.args.target < 16 then
         NotEntered(e) && t == Continue && PrecompiledDone(op, limit, m.view, w, e.args, next)
       else if entry == limit then NotEntered(e) && t == Failure([]) && next.gas == limit
       else
         && entry >= 0 && ToInt(e.args.retSize) >= 0
         && Nested(codes, codes(e.args.target), if op == 0xF4 then address else e.args.target, limit, entry, e,
                   next.gas, t)
         && (t == Continue ==> Delivered(op, m.view, w.size, e, next.view))
  }

  predicate NotEntered(e: CallEvent) {
    e.inner == None && !e.wrapped && e.charged == 0
  }

  /** CallOk, with the outcome of the windows at hand. */
  lemma CallSettled(codes: Address -> seq<Byte>, op: Byte, address: Address, limit: Gas, m: Moment, e: CallEvent,
      next: Moment, t: Tick, w: Expansion, entry: int)
    requires IsCall(op) && w == Windows(op, |m.view.memory|, m.gas, limit, e.args)
    requires entry == w.gas + if e.touched then TOUCH else 0
    requires |m.view.stack| >= Arity(op) ==> e.args == TopArgs(op, m.view)
    requires e.own <==> w.ok && e.args.target >= 16 && entry > limit
    requires next.view.pc == m.view.pc
    requires
      if !w.ok then NotEntered(e) && t == Failure([]) && next.gas == w.gas
      else if e.args.target < 16 then
        NotEntered(e) && t == Continue && PrecompiledDone(op, limit, m.view, w, e.args, next)
      else if entry == limit then NotEntered(e) && t == Failure([]) && next.gas == limit
      else
        && entry >= 0 && ToInt(e.args.retSize) >= 0
        && Nested(codes, codes(e.args.target), CalleeAddress(op, address, e.args.target), limit, entry, e, next.gas, t)
        && (t == Continue ==> Delivered(op, m.view, w.size, e, next.view))
    ensures CallOk(codes, op, address, limit, m, e, next, t)
    ensures Reaches(op, |m.view.memory|, m.gas, limit, e.args) <==> w.ok && e.args.target >= 16
  {
    hide Windows, Nested, PrecompiledDone, Delivered, NotEntered, TopArgs;
  }

  lemma NothingNested(e: CallEvent)
    requires NotEntered(e)
    ensures CallEvents(e) == (if e.own then 1 else 0) && CallLookups(e) == 0
  {
  }

  /** callRaw, entered with so much gas used. Without a nested run the count of events to allow was used up. */
  ghost predicate Nested(codes: Address -> seq<Byte>, callee: seq<Byte>, dst: Address, limit: Gas, entry: nat,
      e: CallEvent, gas: nat, t: Tick)
    decreases e, 0
  {
    if e.inner == None then NotEntered(e) && e.own && t == Exhausted
    else
      var r := e.inner.value;
      && r.start == Start()
      && RunOk(codes, callee, dst, ForwardedGas(RemainingGas(limit, entry), e.args.requested), r)
      && (e.args.value == 0 ==> Paid(callee, r))
      && e.charged <= Lookups(r.visits)
      && if r.outcome == Exhausted then t == Exhausted && !e.wrapped && e.charged == 0
         else
           var total := entry + TOUCH * e.charged + r.end.gas;
           && (e.wrapped <==> total >= TWO_32)
           && ((t == Continue && gas == total % TWO_32) || (t == Exhausted && e.wrapped))
  }

  /** A callee that returns leaves 1, one that fails 0, and the first bytes of its data, as many as the return window
      holds, are in the window; the rest of memory is as before, with zero fill. */
  ghost predicate Delivered(op: Byte, was: View, size: nat, e: CallEvent, now: View)
    requires e.inner.Some? && ToInt(e.args.retSize) >= 0
  {
    var outcome, from, room := e.inner.value.outcome, ToInt(e.args.retOffset), ToInt(e.args.retSize);
    && (outcome.Return? || outcome.Failure?)
    && |now.memory| == (if size > |was.memory| then size else |was.memory|)
    && (forall i :: 0 <= i < |now.memory| ==>
          now.memory[i] == if from <= i < from + room && i - from < |outcome.data| then outcome.data[i - from]
                           else ByteOf(was.memory, i))
    && (|was.stack| >= Arity(op) ==>
          now.stack == Below(was, Arity(op)) + [if outcome.Return? then 1 else 0])
  }

  lemma WindowFilled(op: Byte, was: View, size: nat, e: CallEvent, now: View)
    requires e.inner.Some? && (e.inner.value.outcome.Return? || e.inner.value.outcome.Failure?)
    requires 0 <= ToInt(e.args.retOffset) && 0 <= ToInt(e.args.retSize)
    requires ToInt(e.args.retOffset) + ToInt(e.args.retSize) <= |Grown(was.memory, size)|
    requires now.memory ==
      Patched(Grown(was.memory, size), ToInt(e.args.retOffset), Cut(e.inner.value.outcome, ToInt(e.args.retSize)))
    requires |was.stack| >= Arity(op) ==> now.stack == Below(was, Arity(op)) + [Flag(e.inner.value.outcome)]
    ensures Delivered(op, was, size, e, now)
  {
    GrownExtends(was.memory, size);
  }

  function Cut(t: Tick, n: nat): (bytes: seq<Byte>)
    ensures |bytes| <= n
  {
    var data := if t.Return? || t.Failure? then t.data else [];
    if |data| > n then data[..n] else data
  }

  function Flag(t: Tick): Word {
    if t.Return? then 1 else 0
  }

  /** Any bytes of memory may have been written. */
  ghost predicate PrecompiledDone(op: Byte, limit: Gas, was: View, w: Expansion, args: CallArgs, next: Moment) {
    var argsSize, retSize := ToInt(args.argsSize), ToInt(args.retSize);
    && argsSize >= 0 && retSize >= 0 && |next.view.memory| == w.size
    && next.gas == (if Known(args.target) then w.gas + PrecompiledCost(args.target, argsSize, retSize, 0) else limit)
    && (|was.stack| >= Arity(op) ==>
          next.view.stack == Below(was, Arity(op)) +
            [if Known(args.target) && PrecompiledCost(args.target, argsSize, retSize, 0) <=
                ToInt(RemainingGas(limit, w.gas)) then 1 else 0])
  }

  lemma NoVisits(codes: Address -> seq<Byte>, code: seq<Byte>, address: Address, limit: Gas, start: Moment)
    ensures Steps(codes, code, address, limit, start, [], start) && Events([]) == 0 && Lookups([]) == 0
  {
  }

  lemma OneMore(codes: Address -> seq<Byte>, code: seq<Byte>, address: Address, limit: Gas, start: Moment,
      visits: seq<Visit>, v: Visit, end: Moment)
    requires Steps(codes, code, address, limit, start, visits, v.moment) && VisitOk(codes, code, address, limit, v, end)
    requires visits != [] ==> Last(visits).tick == Continue && v.moment.gas < limit
    ensures Steps(codes, code, address, limit, start, visits + [v], end)
    ensures Events(visits + [v]) == Events(visits) + VisitEvents(v)
    ensures Lookups(visits + [v]) == Lookups(visits) + VisitLookups(v)
    ensures visits + [v] != [] && Last(visits + [v]) == v
  {
    hide VisitOk, VisitEvents, VisitLookups;
    assert Init(visits + [v]) == visits;
  }

  /** The budget left over a stretch with so many events: running out means one more than there was. */
  ghost predicate Counted(events: nat, budget: nat, rest: nat, t: Tick) {
    rest <= budget && events == budget - rest + (if t == Exhausted then 1 else 0) && (t == Exhausted ==> rest == 0)
  }

  lemma WindowsAccepted(op: Byte, size: nat, gas: nat, limit: int, args: CallArgs)
    requires Windows(op, size, gas, limit, args).ok
    ensures 0 <= ToInt(args.argsSize) <= MEMORY_CAP && 0 <= ToInt(args.retSize)
  {
    WindowFits(args.argsOffset, args.argsSize);
  }

  // ---------- runs that halt ----------

  function Max(a: int, b: int): int {
    if a < b then b else a
  }

  /** A run in which no frame enters a call overspent and no gas counter wraps is not cut short, and overshoots its
      limit by at most one instruction's own charge and what nested lookups passed to it. */
  lemma {:induction false} Halts(codes: Address -> seq<Byte>, code: seq<Byte>, address: Address, limit: Gas,
      r: FrameRun)
    requires RunOk(codes, code, address, limit, r) && Events(r.visits) == 0
    ensures r.outcome != Exhausted
    ensures r.end.gas <= Max(limit, r.start.gas) + MAX_CHARGE + Passed(r.visits)
    decreases r, 1
  {
    hide VisitOk;
    if r.visits != [] {
      var v := Last(r.visits);
      HaltsVisit(codes, code, address, limit, v, r.end);
      assert Steps(codes, code, address, limit, r.start, Init(r.visits), v.moment);
    }
  }

  lemma {:induction false} HaltsVisit(codes: Address -> seq<Byte>, code: seq<Byte>, address: Address, limit: Gas,
      v: Visit, next: Moment)
    requires VisitOk(codes, code, address, limit, v, next) && VisitEvents(v) == 0
    ensures v.tick != Exhausted
    ensures next.gas <= Max(limit, v.moment.gas) + MAX_CHARGE + VisitPassed(v)
    decreases v, 1
  {
    hide CallOk;
    var m := v.moment;
    if m.view.pc < |code| {
      if IsCall(code[m.view.pc]) {
        HaltsCall(codes, code[m.view.pc], address, limit, Moment(m.view.(pc := m.view.pc + 1), m.gas), v.call.value,
                  next, v.tick);
      }
    }
  }

  lemma {:induction false} HaltsCall(codes: Address -> seq<Byte>, op: Byte, address: Address, limit: Gas, m: Moment,
      e: CallEvent, next: Moment, t: Tick)
    requires IsCall(op) && CallOk(codes, op, address, limit, m, e, next, t) && CallEvents(e) == 0
    ensures t != Exhausted
    ensures next.gas <= Max(limit, m.gas) + MAX_CHARGE + CallPassed(e)
    decreases e, 1
  {
    hide RunOk, Windows, Expand, PrecompiledCost, Delivered, ForwardedGas, TopArgs, Paid;
    WindowsBound(op, |m.view.memory|, m.gas, limit, e.args);
    var w := Windows(op, |m.view.memory|, m.gas, limit, e.args);
    var entry := EntryGas(op, |m.view.memory|, m.gas, limit, e.args, e.touched);
    if w.ok && e.args.target < 16 {
      WindowsAccepted(op, |m.view.memory|, m.gas, limit, e.args);
      CostOf(e.args.target, ToInt(e.args.argsSize), ToInt(e.args.retSize), 0);
    } else if w.ok && entry != limit {
      HaltsNested(codes, codes(e.args.target), CalleeAddress(op, address, e.args.target), limit, entry, e, next.gas, t);
    }
  }

  lemma {:induction false} HaltsNested(codes: Address -> seq<Byte>, callee: seq<Byte>, dst: Address, limit: Gas,
      entry: nat, e: CallEvent, gas: nat, t: Tick)
    requires Nested(codes, callee, dst, limit, entry, e, gas, t) && CallEvents(e) == 0 && entry < limit
    ensures t == Continue && gas <= limit + MAX_CHARGE + CallPassed(e)
    decreases e, 0
  {
    hide RunOk, ForwardedGas, Paid;
    var r := e.inner.value;
    RemainingExact(limit, entry);
    ForwardedLess(RemainingGas(limit, entry), e.args.requested);
    Halts(codes, callee, dst, ForwardedGas(RemainingGas(limit, entry), e.args.requested), r);
    assert CallPassed(e) == TOUCH * e.charged + Passed(r.visits);
  }

  /** Without a lookup in the run, nested ones included, nothing was passed on. */
  lemma {:induction false} NothingPassed(codes: Address -> seq<Byte>, code: seq<Byte>, address: Address, limit: Gas,
      r: FrameRun)
    requires RunOk(codes, code, address, limit, r) && Lookups(r.visits) == 0
    ensures Passed(r.visits) == 0
  {
    hide VisitOk, Performed;
    if r.visits != [] {
      var v := Last(r.visits);
      assert VisitLookups(v) == 0;
      assert VisitOk(codes, code, address, limit, v, r.end);
      NoLookupsAt(codes, code, address, limit, v, r.end);
    }
  }

  lemma NoLookupsAt(codes: Address -> seq<Byte>, code: seq<Byte>, address: Address, limit: Gas, v: Visit, next: Moment)
    requires VisitOk(codes, code, address, limit, v, next) && VisitLookups(v) == 0
    ensures VisitPassed(v) == 0
  {
    hide Instruction, Nested, Delivered, PrecompiledDone, Windows, TopArgs, RemainingGas;
    if v.call.Some? {
      var m, e := v.moment, v.call.value;
      assert CallOk(codes, code[m.view.pc], address, limit, Moment(m.view.(pc := m.view.pc + 1), m.gas), e, next,
                    v.tick);
      assert NotEntered(e);
    }
  }

  /** Where nothing nested is overspent or wraps, it takes more than 2^30 gas of nested lookups to wrap a counter. */
  lemma WrapsLate(codes: Address -> seq<Byte>, callee: seq<Byte>, dst: Address, limit: Gas, entry: nat, e: CallEvent,
      gas: nat, t: Tick)
    requires Nested(codes, callee, dst, limit, entry, e, gas, t) && entry < limit < HALF_32
    requires e.wrapped && e.inner.Some? && Events(e.inner.value.visits) == 0
    ensures CallPassed(e) > 0x4000_0000
  {
    hide RunOk, ForwardedGas, Paid;
    var r := e.inner.value;
    RemainingExact(limit, entry);
    ForwardedLess(RemainingGas(limit, entry), e.args.requested);
    Halts(codes, callee, dst, ForwardedGas(RemainingGas(limit, entry), e.args.requested), r);
    assert CallPassed(e) == TOUCH * e.charged + Passed(r.visits);
  }

  // ---------- runs that never halt ----------

  /** One step of a frame that only pushes constants. */
  function Pushes(code: seq<Byte>, address: Address, m: Moment): Option<Moment> {
    var v := m.view;
    if v.pc >= |code| then None
    else
      var op, next := code[v.pc], v.pc + 1;
      if op == 0x30 then Some(Moment(View(next, v.stack + [address], v.memory), m.gas + FixedGas(op)))
      else if 0x5F <= op <= 0x7F && next + (op - 0x5F) <= |code| then
        var end := next + (op - 0x5F);
        Some(Moment(View(end, v.stack + [ReadWord(code[next..end])], v.memory), m.gas + FixedGas(op)))
      else None
  }

  /** The state after k such steps, all within the limit. */
  function Straight(code: seq<Byte>, address: Address, limit: Gas, k: nat): Option<Moment> {
    if k == 0 then Some(Start())
    else
      match Straight(code, address, limit, k - 1)
      case None => None
      case Some(m) =>
        var next := Pushes(code, address, m);
        if next.Some? && next.value.gas < limit then next else None
  }

  /** A fresh frame of this code and limit nests at least n + 1 overspent calls. */
  ghost predicate Descends(codes: Address -> seq<Byte>, code: seq<Byte>, address: Address, limit: Gas, n: nat)
    decreases n, 2
  {
    exists k: nat {:trigger Straight(code, address, limit, k)} ::
      var m := Straight(code, address, limit, k);
      m.Some? && Falls(codes, code, address, limit, m.value, n)
  }

  ghost predicate Falls(codes: Address -> seq<Byte>, code: seq<Byte>, address: Address, limit: Gas, m: Moment, n: nat)
    decreases n, 1
  {
    && m.view.pc < |code|
    && Plunges(code[m.view.pc], codes, address, limit, Moment(m.view.(pc := m.view.pc + 1), m.gas), n)
  }

  /** The call at hand is overspent whether or not its target is charged for, and so are the calls it leads to. */
  ghost predicate Plunges(op: Byte, codes: Address -> seq<Byte>, address: Address, limit: Gas, m: Moment, n: nat)
    decreases n, 0
  {
    && IsCall(op) && |m.view.stack| >= Arity(op)
    && var args := TopArgs(op, m.view);
    && args.value == 0
    && forall touched: bool ::
         && EntersOverspent(op, |m.view.memory|, m.gas, limit, args, touched)
         && (n == 0 || Descends(codes, codes(args.target), CalleeAddress(op, address, args.target),
               ForwardedGas(RemainingGas(limit, EntryGas(op, |m.view.memory|, m.gas, limit, args, touched)),
                            args.requested),
               n - 1))
  }

  lemma Plunge(op: Byte, codes: Address -> seq<Byte>, address: Address, limit: Gas, m: Moment, n: nat, touched: bool)
    requires Plunges(op, codes, address, limit, m, n)
    ensures IsCall(op) && |m.view.stack| >= Arity(op)
    ensures var args := TopArgs(op, m.view);
      && args.value == 0 && EntersOverspent(op, |m.view.memory|, m.gas, limit, args, touched)
      && (n == 0 || Descends(codes, codes(args.target), CalleeAddress(op, address, args.target),
            ForwardedGas(RemainingGas(limit, EntryGas(op, |m.view.memory|, m.gas, limit, args, touched)),
                         args.requested),
            n - 1))
  {
  }

  ghost function FallingAt(codes: Address -> seq<Byte>, code: seq<Byte>, address: Address, limit: Gas, n: nat): (k: nat)
    requires Descends(codes, code, address, limit, n)
    ensures Straight(code, address, limit, k).Some? && code != []
    ensures Falls(codes, code, address, limit, Straight(code, address, limit, k).value, n)
  {
    var k: nat :| Straight(code, address, limit, k).Some? &&
      Falls(codes, code, address, limit, Straight(code, address, limit, k).value, n);
    k
  }

  lemma {:induction false} StraightPrefix(code: seq<Byte>, address: Address, limit: Gas, i: nat, k: nat)
    requires i <= k && Straight(code, address, limit, k).Some?
    ensures Straight(code, address, limit, i).Some?
    decreases k
  {
    if i < k {
      StraightPrefix(code, address, limit, i, k - 1);
    }
  }

  lemma PushStep(code: seq<Byte>, address: Address, limit: Gas, m: Moment, next: Moment, t: Tick)
    requires Pushes(code, address, m).Some?
    requires
      Instruction(code[m.view.pc], code, address, limit, Moment(m.view.(pc := m.view.pc + 1), m.gas), next, t)
    ensures t == Continue && Pushes(code, address, m) == Some(next)
  {
    hide ReadWord, MemoryCost;
  }

  /** A visit of the straight run is its step. */
  lemma StraightOn(codes: Address -> seq<Byte>, code: seq<Byte>, address: Address, limit: Gas, i: nat, v: Visit,
      next: Moment)
    requires Straight(code, address, limit, i) == Some(v.moment) && Straight(code, address, limit, i + 1).Some?
    requires VisitOk(codes, code, address, limit, v, next)
    ensures v.tick == Continue && Straight(code, address, limit, i + 1) == Some(next) && next.gas < limit
  {
    hide CallOk, Instruction;
    assert Straight(code, address, limit, i + 1) == Pushes(code, address, v.moment);
    PushStep(code, address, limit, v.moment, next, v.tick);
  }

  lemma {:induction false} StraightSteps(codes: Address -> seq<Byte>, code: seq<Byte>, address: Address, limit: Gas,
      visits: seq<Visit>, end: Moment, k: nat)
    requires Steps(codes, code, address, limit, Start(), visits, end)
    requires |visits| <= k && Straight(code, address, limit, k).Some?
    ensures Straight(code, address, limit, |visits|) == Some(end)
    ensures visits != [] ==> Last(visits).tick == Continue && end.gas < limit
    decreases |visits|
  {
    hide VisitOk, Pushes;
    assert visits != [] ==> |Init(visits)| == |visits| - 1;
    if visits != [] {
      StraightSteps(codes, code, address, limit, Init(visits), Last(visits).moment, k);
      StraightPrefix(code, address, limit, |visits|, k);
      StraightOn(codes, code, address, limit, |visits| - 1, Last(visits), end);
    }
  }

  /** The visits up to the k-th, and what they count. */
  lemma {:induction false} StepsUpTo(codes: Address -> seq<Byte>, code: seq<Byte>, address: Address, limit: Gas,
      start: Moment, visits: seq<Visit>, end: Moment, k: nat)
    requires Steps(codes, code, address, limit, start, visits, end) && k < |visits|
    ensures Steps(codes, code, address, limit, start, visits[..k], visits[k].moment)
    ensures VisitOk(codes, code, address, limit, visits[k], if k + 1 < |visits| then visits[k + 1].moment else end)
    ensures Events(visits) >= VisitEvents(visits[k])
    ensures k + 1 < |visits| ==> visits[k].tick == Continue
    decreases |visits|
  {
    hide VisitOk, VisitEvents;
    var init := Init(visits);
    if k < |init| {
      StepsUpTo(codes, code, address, limit, start, init, Last(visits).moment, k);
      assert init[..k] == visits[..k];
    }
  }

  /** Every run of a frame that descends n + 1 levels is cut short or has more than n overspent calls. */
  lemma {:induction false} DescendsEvents(codes: Address -> seq<Byte>, code: seq<Byte>, address: Address, limit: Gas,
      r: FrameRun, n: nat)
    requires RunOk(codes, code, address, limit, r) && Paid(code, r) && r.start == Start()
    requires Descends(codes, code, address, limit, n)
    ensures r.outcome == Exhausted || Events(r.visits) > n
    decreases n, 2
  {
    hide VisitOk, VisitEvents, Falls, Pushes;
    var k := FallingAt(codes, code, address, limit, n);
    if |r.visits| <= k {
      StraightSteps(codes, code, address, limit, r.visits, r.end, k);
      assert false;
    }
    StepsUpTo(codes, code, address, limit, Start(), r.visits, r.end, k);
    StraightSteps(codes, code, address, limit, r.visits[..k], r.visits[k].moment, k);
    FallsEvents(codes, code, address, limit, r.visits[k],
                if k + 1 < |r.visits| then r.visits[k + 1].moment else r.end, n);
  }

  lemma {:induction false} FallsEvents(codes: Address -> seq<Byte>, code: seq<Byte>, address: Address, limit: Gas,
      v: Visit, next: Moment, n: nat)
    requires VisitOk(codes, code, address, limit, v, next) && Falls(codes, code, address, limit, v.moment, n)
    ensures v.tick == Exhausted || VisitEvents(v) > n
    decreases n, 1
  {
    hide CallOk, Plunges, EntersOverspent, Descends, TopArgs, Instruction, EntryGas, Arity, CallEvents;
    var op, m := code[v.moment.view.pc], Moment(v.moment.view.(pc := v.moment.view.pc + 1), v.moment.gas);
    Plunge(op, codes, address, limit, m, n, false);
    PlungesEvents(codes, op, address, limit, m, v.call.value, next, v.tick, n);
  }

  lemma {:induction false} PlungesEvents(codes: Address -> seq<Byte>, op: Byte, address: Address, limit: Gas,
      m: Moment, e: CallEvent, next: Moment, t: Tick, n: nat)
    requires CallOk(codes, op, address, limit, m, e, next, t) && Plunges(op, codes, address, limit, m, n)
    ensures t == Exhausted || CallEvents(e) > n
    decreases n, 0
  {
    hide RunOk, Descends, Windows, Delivered, ForwardedGas, RemainingGas, TopArgs, Paid, Arity;
    Plunge(op, codes, address, limit, m, n, e.touched);
    var entry := EntryGas(op, |m.view.memory|, m.gas, limit, e.args, e.touched);
    assert Nested(codes, codes(e.args.target), CalleeAddress(op, address, e.args.target), limit, entry, e, next.gas, t);
    if n > 0 && e.inner.Some? {
      DescendsEvents(codes, codes(e.args.target), CalleeAddress(op, address, e.args.target),
        ForwardedGas(RemainingGas(limit, entry), e.args.requested), e.inner.value, n - 1);
    }
  }

  lemma Conclusions(codes: Address -> seq<Byte>, code: seq<Byte>, address: Address, limit: Gas, r: FrameRun,
      transferred: bool, n: nat)
    requires RunOk(codes, code, address, limit, r) && (transferred ==> Paid(code, r))
    ensures Events(r.visits) == 0 ==>
      r.outcome != Exhausted && r.end.gas <= Max(limit, r.start.gas) + MAX_CHARGE + Passed(r.visits)
    ensures transferred && r.start == Start() && Descends(codes, code, address, limit, n) ==>
      r.outcome == Exhausted || Events(r.visits) > n
  {
    hide RunOk, Descends;
    if Events(r.visits) == 0 {
      Halts(codes, code, address, limit, r);
    }
    if transferred && r.start == Start() && Descends(codes, code, address, limit, n) {
      DescendsEvents(codes, code, address, limit, r, n);
    }
  }

  // ---------- the machine of one frame ----------

  class Machine {
    const code: seq<Byte>
    const address: Address
    const gasLimit: Gas
    var pc: nat
    var stack: seq<Word>
    var memory: seq<Byte>
    var gasUsed: Gas
    /** How often this frame and those nested in it looked up code: a bound on what callees may charge their callers. */
    var lookups: nat
    ghost var memoryGas: nat

    constructor (code: seq<Byte>, address: Address, gasLimit: Gas)
      ensures this.code == code && this.address == address && this.gasLimit == gasLimit
      ensures pc == 0 && stack == [] && memory == [] && gasUsed == 0 && memoryGas == 0 && lookups == 0
    {
      this.code, this.address, this.gasLimit := code, address, gasLimit;
      pc, stack, memory, gasUsed, memoryGas, lookups := 0, [], [], 0, 0, 0;
    }

    /** Memory stays under the cap, and all memory gas ever charged is the cost of its present size. */
    ghost predicate Valid()
      reads this
    {
      && |code| < HALF_32 && gasLimit < HALF_32
      && |memory| <= MEMORY_CAP
      && memoryGas == MemoryCost(Words(|memory|))
    }

    ghost function Now(): View
      reads this
    {
      View(pc, stack, memory)
    }

    ghost function AtNow(): Moment
      reads this
    {
      Moment(Now(), gasUsed)
    }

    method Charge(amount: nat)
      requires gasUsed + amount < TWO_32
      modifies this`gasUsed
      ensures gasUsed == old(gasUsed) + amount
    {
      gasUsed := (gasUsed + amount) % TWO_32;
    }

    method Push(x: Word)
      modifies this`stack
      ensures stack == old(stack) + [x]
    {
      stack := stack + [x];
    }

    /** Taking from an empty stack yields some word; the list class is not part of this model. */
    method Pop() returns (x: Word)
      modifies this`stack
      ensures if old(stack) == [] then stack == []
              else x == old(stack)[|old(stack)| - 1] && stack == old(stack)[..|old(stack)| - 1]
    {
      if stack == [] {
        x := *;
      } else {
        x := stack[|stack| - 1];
        stack := stack[..|stack| - 1];
      }
    }

    method PopTwo() returns (a: Word, b: Word)
      modifies this`stack
      ensures var n := |old(stack)|;
              n >= 2 ==> a == old(stack)[n - 1] && b == old(stack)[n - 2] && stack == old(stack)[..n - 2]
    {
      a := Pop();
      b := Pop();
    }

    /** expandMemory. */
    method ExpandMemory(offset256: Word, size256: Word) returns (ok: bool)
      requires Valid() && gasUsed < HALF_32 + MAX_CHARGE
      modifies this`memory, this`gasUsed, this`memoryGas
      ensures Valid()
      ensures ok ==> 0 <= ToInt(offset256) && 0 <= ToInt(size256) && ToInt(offset256) + ToInt(size256) <= |memory|
      ensures var end := ToInt(offset256) + ToInt(size256);
              var fits := (offset256 + size256) % TWO_256 <= MEMORY_CAP && ToInt(offset256) >= 0 && ToInt(size256) >= 0;
              var grows := fits && end > |old(memory)|;
              var cost := if grows then MemoryCost(Words(end)) - MemoryCost(Words(|old(memory)|)) else 0;
              && 0 <= cost <= 4_333_152 && gasUsed == old(gasUsed) + cost
              && ok == (fits && (grows ==> gasUsed <= gasLimit))
              && memory == (if ok && grows then Grown(old(memory), end) else old(memory))
      ensures Expansion(ok, |memory|, gasUsed) == Expand(|old(memory)|, old(gasUsed), gasLimit, offset256, size256)
      ensures memory == Grown(old(memory), |memory|)
    {
      if (offset256 + size256) % TWO_256 > MEMORY_CAP {
        return false;
      }
      var offset, size := ToInt(offset256), ToInt(size256);
      if offset < 0 || size < 0 {
        return false;
      }
      WindowFits(offset256, size256);
      if offset + size > |memory| {
        var lastWordAccessed := (offset + size + 31) / 32;
        var expansionCost := lastWordAccessed * lastWordAccessed / 512 + 3 * lastWordAccessed;
        lastWordAccessed := (|memory| + 31) / 32;
        expansionCost := expansionCost - (lastWordAccessed * lastWordAccessed / 512 + 3 * lastWordAccessed);
        CostBounds(offset + size);
        CostMonotone(Words(|memory|), Words(offset + size));
        Charge(expansionCost);
        if gasUsed > gasLimit {
          return false;
        }
        memory := memory + seq<Byte>(offset + size - |memory|, _ => 0);
        memoryGas := memoryGas + expansionCost;
      }
      return true;
    }

    // ---------- instructions ----------

    method Binary(op: Byte)
      requires gasUsed < HALF_32
      modifies this`stack, this`gasUsed
      ensures gasUsed == old(gasUsed) + 3 && BinaryDone(op, old(Now()), Now())
    {
      var a := Pop();
      var b := Pop();
      AluUndone(op, a, b);
      Push(Alu(op, a, b));
      Charge(3);
    }

    method Jump(conditional: bool) returns (t: Tick)
      requires gasUsed < HALF_32
      modifies this`stack, this`gasUsed, this`pc
      ensures gasUsed == old(gasUsed) + if conditional then 10 else 8
      ensures t == Continue || t == Failure([])
      ensures JumpDone(conditional, code, old(Now()), Now(), t)
    {
      var a := Pop();
      var b := 1;
      if conditional {
        b := Pop();
      }
      Charge(if conditional then 10 else 8);
      if b == 0 {
        return Continue;
      }
      if a >= |code| {
        return Failure([]);
      }
      pc := a;
      return if code[pc] == 0x5b then Continue else Failure([]);
    }

    method PushBytes(count: nat)
      requires count <= 32 && gasUsed < HALF_32
      modifies this`stack, this`gasUsed, this`pc
      ensures gasUsed == old(gasUsed) + (if count == 0 then 2 else 3) && pc == old(pc) + count
      ensures |stack| == |old(stack)| + 1 && stack[..|old(stack)|] == old(stack)
      ensures PushDone(count, code, old(Now()), Now())
    {
      var a: Word := *;
      if pc + count <= |code| {
        a := ReadWord(code[pc..pc + count]);
      }
      Push(a);
      pc := pc + count;
      Charge(if count == 0 then 2 else 3);
    }

    method Dup(count: nat) returns (t: Tick)
      requires 1 <= count && gasUsed < HALF_32
      modifies this`stack, this`gasUsed
      ensures (t == Continue || t == Failure([])) && DupDone(count, old(Now()), Now(), t)
      ensures gasUsed == old(gasUsed) + if t == Continue then 3 else 0
    {
      if |stack| < count {
        return Failure([]);
      }
      Push(stack[|stack| - count]);
      Charge(3);
      return Continue;
    }

    /** SWAP n exchanges the top with the entry n below it; too short a stack leaves an arbitrary one. */
    method Swap(n: nat)
      requires 1 <= n && gasUsed < HALF_32
      modifies this`stack, this`gasUsed
      ensures gasUsed == old(gasUsed) + 3 && SwapDone(n, old(Now()), Now())
    {
      var count := |stack| - n - 1;
      if count < 0 {
        stack := *;
      } else {
        var a := stack[count];
        stack := stack[count := stack[|stack| - 1]];
        stack := stack[|stack| - 1 := a];
      }
      Charge(3);
    }

    /** Overwriting a window that lies inside memory. */
    method Write(offset: nat, bytes: seq<Byte>)
      requires offset + |bytes| <= |memory|
      modifies this`memory
      ensures memory == old(memory)[..offset] + bytes + old(memory)[offset + |bytes|..]
      ensures memory == Patched(old(memory), offset, bytes)
    {
      memory := memory[..offset] + bytes + memory[offset + |bytes|..];
    }

    method MLoad() returns (t: Tick)
      requires Valid() && gasUsed < HALF_32
      modifies this`stack, this`memory, this`gasUsed, this`memoryGas
      ensures Valid() && pc == old(pc) && old(gasUsed) + 3 <= gasUsed <= old(gasUsed) + MAX_CHARGE
      ensures t == Continue || t == Failure([])
      ensures t == Continue ==> MLoadDone(old(Now()), Now())
      ensures Accessed(1, gasLimit, old(AtNow()), AtNow(), t)
    {
      hide ReadWord, Expand;
      ghost var was := memory;
      var a := Pop();
      Charge(3);
      var ok := ExpandMemory(a, 32);
      if !ok {
        return Failure([]);
      }
      assert Extends(memory, was);
      Push(ReadWord(memory[ToInt(a)..ToInt(a) + 32]));
      return Continue;
    }

    method MStore() returns (t: Tick)
      requires Valid() && gasUsed < HALF_32
      modifies this`stack, this`memory, this`gasUsed, this`memoryGas
      ensures Valid() && pc == old(pc) && old(gasUsed) + 3 <= gasUsed <= old(gasUsed) + MAX_CHARGE
      ensures t == Continue || t == Failure([])
      ensures t == Continue ==> MStoreDone(old(Now()), Now())
      ensures Accessed(2, gasLimit, old(AtNow()), AtNow(), t)
    {
      hide Copied, ToBytes, Expand, Extends, MemoryCost, Patched;
      ghost var was := memory;
      var a, b := PopTwo();
      Charge(3);
      var ok := ExpandMemory(a, 32);
      if !ok {
        return Failure([]);
      }
      GrownExtends(was, |memory|);
      WriteWord(ToInt(a), b, was);
      return Continue;
    }

    method WriteWord(offset: nat, w: Word, ghost was: seq<Byte>)
      requires offset + 32 <= |memory| && Extends(memory, was)
      modifies this`memory
      ensures |memory| == |old(memory)| && Copied(memory, was, ToBytes(w, 32), offset, 0, 32)
    {
      hide Copied, ToBytes, Patched;
      ghost var grown := memory;
      var bytes := ToBytes(w, 32);
      Write(offset, bytes);
      CopyResult(memory, grown, was, bytes, bytes, offset, 0, bytes);
    }

    /** MCOPY makes room for the source first when it lies higher; then room is made for the destination. */
    method GrowForCopy(fromMemory: bool, offDst: Word, offSrc: Word, size256: Word) returns (ok: bool)
      requires Valid() && gasUsed < HALF_32 + 3
      modifies this`memory, this`gasUsed, this`memoryGas
      ensures Valid() && old(gasUsed) <= gasUsed <= old(gasUsed) + 2 * 4_333_152
      ensures ok ==> 0 <= ToInt(offDst) && 0 <= ToInt(size256) && ToInt(offDst) + ToInt(size256) <= |memory|
      ensures ok ==> Extends(memory, old(memory)) && |old(memory)| <= |memory|
      ensures Expansion(ok, |memory|, gasUsed) ==
        CopyRoom(fromMemory, |old(memory)|, old(gasUsed), gasLimit, offDst, offSrc, size256)
    {
      hide Expand, MemoryCost;
      if fromMemory && offSrc > offDst {
        var expanded := ExpandMemory(offSrc, size256);
        if !expanded {
          return false;
        }
      }
      ok := ExpandMemory(offDst, size256);
    }

    method CopyWindow(fromMemory: bool, offDst: Word, offSrc: Word, size256: Word) returns (t: Tick)
      requires Valid() && gasUsed < HALF_32 + 3
      modifies this`memory, this`gasUsed, this`memoryGas
      ensures Valid() && old(gasUsed) <= gasUsed <= old(gasUsed) + MAX_CHARGE - 3
      ensures t == Continue || t == Failure([])
      ensures t == Continue ==>
                var dst, src, size := ToInt(offDst), ToInt(offSrc), ToInt(size256);
                && 0 <= dst && 0 <= size && dst + size <= |memory| && |old(memory)| <= |memory|
                && (src >= 0 ==> Copied(memory, old(memory), if fromMemory then old(memory) else code, dst, src, size))
      ensures var e := CopyRoom(fromMemory, |old(memory)|, old(gasUsed), gasLimit, offDst, offSrc, size256);
        && (t == Continue <==> e.ok) && |memory| == e.size
        && gasUsed == e.gas + (if e.ok && ToInt(size256) >= 0 then 3 * Words(ToInt(size256)) else 0)
    {
      hide Copied, MemoryCost, CopyRoom, Expand, Extends, Patched;
      var ok := GrowForCopy(fromMemory, offDst, offSrc, size256);
      if !ok {
        return Failure([]);
      }
      var dst, srcOff, size := ToInt(offDst), ToInt(offSrc), ToInt(size256);
      var src := if fromMemory then memory else code;
      ghost var was, grown := old(memory), memory;
      if size == 0 {
        if srcOff >= 0 {
          CopyResult(memory, grown, was, src, if fromMemory then was else code, dst, srcOff, []);
        }
        return Continue;
      }
      Charge(3 * ((size + 31) / 32));
      var bytes: seq<Byte> := seq(size, i => 0);
      if srcOff < 0 {
        // reading before the list's start: any bytes
        bytes := *;
        if |bytes| != size {
          bytes := seq(size, i => 0);
        }
      } else {
        bytes := Window(src, srcOff, size);
      }
      Write(dst, bytes);
      if srcOff >= 0 {
        CopyResult(memory, grown, was, src, if fromMemory then was else code, dst, srcOff, bytes);
      }
      return Continue;
    }

    /** handleCopyInstruction, for CODECOPY and MCOPY: source bytes past the end are zero. */
    method Copy(fromMemory: bool) returns (t: Tick)
      requires Valid() && gasUsed < HALF_32
      modifies this`stack, this`memory, this`gasUsed, this`memoryGas
      ensures Valid() && pc == old(pc) && old(gasUsed) + 3 <= gasUsed <= old(gasUsed) + MAX_CHARGE
      ensures t == Continue || t == Failure([])
      ensures t == Continue ==> CopyDone(fromMemory, code, old(Now()), Now())
      ensures CopyCharged(fromMemory, gasLimit, old(AtNow()), AtNow(), t)
    {
      hide Copied, CopyRoom, MemoryCost, Words;
      Charge(3);
      var offDst, offSrc, size256 := 0, 0, 0;
      offDst := Pop();
      offSrc := Pop();
      size256 := Pop();
      t := CopyWindow(fromMemory, offDst, offSrc, size256);
    }

    method Log(topics: nat) returns (t: Tick)
      requires Valid() && gasUsed < HALF_32 && topics <= 4
      modifies this`stack, this`memory, this`gasUsed, this`memoryGas
      ensures Valid() && pc == old(pc) && old(gasUsed) <= gasUsed <= old(gasUsed) + MAX_CHARGE
      ensures t == Failure([]) || (t == Continue && gasUsed >= old(gasUsed) + 375 + 375 * topics)
      ensures LogDone(topics, gasLimit, old(AtNow()), AtNow(), t)
    {
      hide Expand, MemoryCost, Extends;
      ghost var was := stack;
      var a, b := PopTwo();
      var ok := ExpandMemory(a, b);
      if !ok {
        return Failure([]);
      }
      GrownExtends(old(memory), |memory|);
      ghost var rest := stack;
      for i := 0 to topics
        invariant |rest| >= topics ==> stack == rest[..|rest| - i]
        modifies this`stack
      {
        var topic := Pop();
      }
      assert |was| >= topics + 2 ==> stack == was[..|was| - topics - 2];
      Charge(375 + 375 * topics + 8 * ToInt(b));
      return Continue;
    }

    method DoReturn() returns (t: Tick)
      requires Valid() && gasUsed < HALF_32
      modifies this`stack, this`memory, this`gasUsed, this`memoryGas
      ensures Valid() && old(gasUsed) <= gasUsed <= old(gasUsed) + MAX_CHARGE
      ensures (t == Continue || t.Return?) && ReturnDone(gasLimit, old(AtNow()), AtNow(), t)
    {
      hide Expand, MemoryCost, Words, Grown, ToInt;
      var a, b := PopTwo();
      var ok := ExpandMemory(a, b);
      if !ok {
        return Continue;
      }
      LowHalfSmaller(b);
      return Return(memory[ToInt(a)..ToInt(a) + b % 0x1_0000]);
    }

    method Revert() returns (t: Tick)
      requires Valid() && gasUsed < HALF_32
      modifies this`stack, this`memory, this`gasUsed, this`memoryGas
      ensures Valid() && old(gasUsed) <= gasUsed <= old(gasUsed) + MAX_CHARGE && t.Failure?
      ensures RevertDone(gasLimit, old(AtNow()), AtNow(), t)
    {
      hide Expand, MemoryCost, ToBytes, Words, Grown, ToInt;
      var a, b := PopTwo();
      if a > 14000 || b > 14000 {
        return Failure(ToBytes(a, 32) + ToBytes(b, 32));
      }
      var ok := ExpandMemory(a, b);
      if !ok {
        return Failure([]);
      }
      LowHalfSmaller(b);
      return Failure(memory[ToInt(a)..ToInt(a) + b % 0x1_0000]);
    }

    // ---------- calls and the frame loop ----------

    ghost function Left(): nat
      reads this
    {
      if gasUsed < gasLimit then gasLimit - gasUsed else 0
    }

    /** callPrecompiled: the flag is 0 for an unknown contract and for one that costs more than the gas left, read
        as a signed int; any bytes of memory may have been written. */
    method Precompiled(index: nat, argsSize: nat, retSize: nat)
      requires Valid() && gasUsed < HALF_32 + MAX_CHARGE && argsSize <= MEMORY_CAP
      modifies this`memory, this`stack, this`gasUsed
      ensures Valid() && |memory| == |old(memory)|
      ensures if Known(index) then gasUsed == old(gasUsed) + PrecompiledCost(index, argsSize, retSize, 0)
              else gasUsed == gasLimit
      ensures stack == old(stack) + [if Known(index) && PrecompiledCost(index, argsSize, retSize, 0) <=
                                        ToInt(RemainingGas(gasLimit, old(gasUsed))) then 1 else 0]
    {
      hide PrecompiledCost, RemainingGas, MemoryCost;
      var gas := RemainingGas(gasLimit, gasUsed);
      RemainingExact(gasLimit, gasUsed);
      CostOf(index, argsSize, retSize, gas);
      var cost := PrecompiledCost(index, argsSize, retSize, gas);
      var written: seq<Byte> := *;
      if |written| == |memory| {
        memory := written;
      }
      Push(if Known(index) && cost <= ToInt(gas) then 1 else 0);
      gasUsed := (gasUsed + cost) % TWO_32;
    }

    /** Pops the operands of a call. */
    method TakeArgs(opcode: Byte) returns (args: CallArgs)
      requires IsCall(opcode)
      modifies this`stack
      ensures |old(stack)| >= Arity(opcode) ==> args == TopArgs(opcode, old(Now()))
      ensures |old(stack)| >= Arity(opcode) ==> stack == Below(old(Now()), Arity(opcode))
      ensures !TakesValue(opcode) ==> args.value == 0
    {
      ghost var was := stack;
      var requested, target := PopTwo();
      var value: Word := 0;
      if TakesValue(opcode) {
        value := Pop();
      }
      ghost var n := Arity(opcode);
      assert |was| >= n ==> stack == was[..|was| - (n - 4)];
      var argsOffset, argsSize := PopTwo();
      assert |was| >= n ==> stack == was[..|was| - (n - 2)];
      var retOffset, retSize := PopTwo();
      assert |was| >= n ==> stack == was[..|was| - n];
      args := CallArgs(requested, target % TWO_160, value, argsOffset, argsSize, retOffset, retSize);
    }

    /** A call's own charge and its two memory expansions. */
    method OpenWindows(opcode: Byte, args: CallArgs) returns (ok: bool)
      requires Valid() && gasUsed < HALF_32 && IsCall(opcode)
      modifies this`memory, this`gasUsed, this`memoryGas
      ensures Valid() && memory == Grown(old(memory), |memory|)
      ensures Expansion(ok, |memory|, gasUsed) == Windows(opcode, |old(memory)|, old(gasUsed), gasLimit, args)
      ensures old(gasUsed) <= gasUsed <= old(gasUsed) + 100 + 2 * 4_333_152
      ensures ok ==> 0 <= ToInt(args.argsSize) <= MEMORY_CAP
      ensures ok ==> 0 <= ToInt(args.retOffset) && 0 <= ToInt(args.retSize)
      ensures ok ==> ToInt(args.retOffset) + ToInt(args.retSize) <= |memory|
    {
      hide MemoryCost, Expand;
      Charge(if opcode != 0xF2 then 100 else 0);
      ok := ExpandMemory(args.argsOffset, args.argsSize);
      if ok {
        ghost var first := |memory|;
        ok := ExpandMemory(args.retOffset, args.retSize);
        GrownTwice(old(memory), first, |memory|);
      }
    }

    /** getContractCode may charge for the address. */
    method GetContractCode(codes: Address -> seq<Byte>, target: Address) returns (runcode: seq<Byte>, touched: bool)
      requires SmallCodes(codes) && gasUsed < HALF_32 + MAX_CHARGE
      modifies this`gasUsed, this`lookups
      ensures runcode == codes(target) && |runcode| < HALF_32
      ensures gasUsed == old(gasUsed) + (if touched then TOUCH else 0) && lookups == old(lookups) + 1
    {
      hide SmallCodes;
      touched := *;
      Charge(if touched then TOUCH else 0);
      lookups := lookups + 1;
      CodeIsSmall(codes, target);
      runcode := codes(target);
    }

    /** generateCall and generateStaticCall: take the arguments, expand memory for both windows, look up the callee's
        code, then call. budget bounds the events of the whole run; rest is what is left of it. */
    method GenerateCall(opcode: Byte, codes: Address -> seq<Byte>, budget: nat)
        returns (t: Tick, rest: nat, ghost e: CallEvent)
      requires Valid() && gasUsed < HALF_32 && SmallCodes(codes) && IsCall(opcode)
      modifies this
      ensures Valid() && rest <= budget && pc == old(pc)
      ensures t == Continue || t == Failure([]) || t == Exhausted
      ensures CallOk(codes, opcode, address, gasLimit, old(AtNow()), e, AtNow(), t)
      ensures Counted(CallEvents(e), budget, rest, t)
      ensures lookups == old(lookups) + CallLookups(e) +
        if Reaches(opcode, |old(memory)|, old(gasUsed), gasLimit, e.args) then 1 else 0
      ensures t == Continue && rest == budget && gasUsed < gasLimit ==> old(gasUsed) <= gasUsed
      decreases budget, Left(), 2
    {
      hide MemoryCost, Windows, SmallCodes, Arity, TopArgs, Below, RemainingGas, ForwardedGas, Nested, Grown;
      hide PrecompiledCost, Patched, Cut, Flag, CalleeAddress, CallEvents, CallLookups, Words, IsCall, Known;
      hide CallOk, Reaches, Delivered;
      ghost var m := AtNow();
      var args := TakeArgs(opcode);
      rest := budget;
      e := CallEvent(args, false, false, false, 0, None);
      NothingNested(e);
      var ok := OpenWindows(opcode, args);
      ghost var w, entry := Expansion(ok, |memory|, gasUsed), gasUsed;
      if !ok {
        t := Failure([]);
      } else if args.target < 16 {
        CostOf(args.target, ToInt(args.argsSize), ToInt(args.retSize), 0);
        Precompiled(args.target, ToInt(args.argsSize), ToInt(args.retSize));
        t := Continue;
      } else {
        var runcode, touched := GetContractCode(codes, args.target);
        entry := gasUsed;
        t, rest, e := CallRaw(runcode, CalleeAddress(opcode, address, args.target), args, touched, codes, budget);
        if t == Continue {
          WindowFilled(opcode, m.view, w.size, e, Now());
        }
      }
      CallSettled(codes, opcode, address, gasLimit, m, e, AtNow(), t, w, entry);
    }

    /** Takes over a callee's gas. Code lookups of nested frames go through the caches of the frames around them, which
        may charge those too, once for each; a wrap of the counter uses up one of the budget. */
    method TakeOver(used: Gas, looked: nat, budget: nat) returns (fits: bool, rest: nat, ghost charged: nat)
      modifies this`gasUsed
      ensures charged <= looked
      ensures var total := old(gasUsed) + TOUCH * charged + used;
        && gasUsed == total % TWO_32
        && Counted(if total >= TWO_32 then 1 else 0, budget, rest, if fits then Continue else Exhausted)
    {
      var lookups: int := *;
      if lookups < 0 || lookups > looked {
        lookups := looked;
      }
      charged := lookups;
      var total := gasUsed + TOUCH * lookups + used;
      gasUsed := total % TWO_32;
      fits, rest := true, budget;
      if total >= TWO_32 {
        if budget == 0 {
          fits := false;
        } else {
          rest := budget - 1;
        }
      }
    }

    /** callRaw: run the callee on at most 63/64 of the remaining gas and take over its charge. An overspent frame
        is let through with the wrapped difference; that, and a wrap of the counter, each use up one of the budget. */
    method CallRaw(callee: seq<Byte>, dst: Address, args: CallArgs, ghost touched: bool, codes: Address -> seq<Byte>,
        budget: nat)
        returns (t: Tick, rest: nat, ghost e: CallEvent)
      requires Valid() && SmallCodes(codes) && |callee| < HALF_32
      requires 0 <= ToInt(args.retOffset) && 0 <= ToInt(args.retSize)
      requires ToInt(args.retOffset) + ToInt(args.retSize) <= |memory|
      modifies this`memory, this`stack, this`gasUsed, this`lookups
      ensures Valid() && rest <= budget
      ensures t == Continue || t == Failure([]) || t == Exhausted
      ensures e.args == args && e.touched == touched && (e.own <==> old(gasUsed) > gasLimit)
      ensures if old(gasUsed) == gasLimit then NotEntered(e) && t == Failure([]) && gasUsed == gasLimit
              else Nested(codes, callee, dst, gasLimit, old(gasUsed), e, gasUsed, t)
      ensures Counted(CallEvents(e), budget, rest, t) && lookups == old(lookups) + CallLookups(e)
      ensures t == Continue ==>
        && e.inner.Some? && (e.inner.value.outcome.Return? || e.inner.value.outcome.Failure?)
        && stack == old(stack) + [Flag(e.inner.value.outcome)]
        && memory == Patched(old(memory), ToInt(args.retOffset), Cut(e.inner.value.outcome, ToInt(args.retSize)))
      ensures t == Continue && rest == budget ==> old(gasUsed) <= gasUsed
      decreases budget, Left(), 1
    {
      hide RemainingGas, ForwardedGas, MemoryCost, SmallCodes, RunOk, Lookups, Events, Patched, Cut, Words, Paid;
      RemainingExact(gasLimit, gasUsed);
      rest, e := budget, CallEvent(args, touched, gasUsed > gasLimit, false, 0, None);
      var remaining := RemainingGas(gasLimit, gasUsed);
      if remaining == 0 {
        return Failure([]), rest, e;
      }
      if gasUsed > gasLimit {
        if budget == 0 {
          return Exhausted, 0, e;
        }
        rest := budget - 1;
      }
      ForwardedLess(remaining, args.requested);
      var transferred: bool := *;
      var outcome, used, looked;
      ghost var run;
      outcome, used, looked, rest, run := RunCallee(callee, dst, ForwardedGas(remaining, args.requested),
        args.value == 0 || transferred, codes, rest);
      lookups := lookups + looked;
      e := e.(inner := Some(run));
      if outcome == Exhausted {
        return Exhausted, rest, e;
      }
      ghost var charged;
      ghost var entry := gasUsed;
      var fits;
      fits, rest, charged := TakeOver(used, looked, rest);
      e := e.(charged := charged, wrapped := entry + TOUCH * charged + used >= TWO_32);
      if !fits {
        return Exhausted, rest, e;
      }
      Push(Flag(outcome));
      Write(ToInt(args.retOffset), Cut(outcome, ToInt(args.retSize)));
      t := Continue;
    }

    /** The subcontext of callRaw, and its run. */
    static method RunCallee(callee: seq<Byte>, dst: Address, limit: Gas, transferred: bool, codes: Address -> seq<Byte>,
        budget: nat)
        returns (outcome: Tick, used: Gas, looked: nat, rest: nat, ghost run: FrameRun)
      requires SmallCodes(codes) && |callee| < HALF_32 && limit < HALF_32
      ensures outcome.Return? || outcome.Failure? || outcome.Exhausted?
      ensures run.start == Start() && run.end.gas == used && run.outcome == outcome
      ensures RunOk(codes, callee, dst, limit, run) && (transferred ==> Paid(callee, run))
      ensures Counted(Events(run.visits), budget, rest, outcome) && looked == Lookups(run.visits)
      decreases budget, limit, 5
    {
      hide MemoryCost, RunOk, Events, Lookups, Paid, SmallCodes;
      CostZero();
      var child := new Machine(callee, dst, limit);
      outcome, rest, run := child.RunEVMRaw(transferred, codes, budget);
      used, looked := child.gasUsed, child.lookups;
    }

    /** tickEVMRaw. */
    method TickEVMRaw(codes: Address -> seq<Byte>, budget: nat) returns (t: Tick, rest: nat, ghost v: Visit)
      requires Valid() && gasUsed < HALF_32 && SmallCodes(codes)
      modifies this
      ensures Valid() && rest <= budget
      ensures v.moment == old(AtNow()) && v.tick == t && VisitOk(codes, code, address, gasLimit, v, AtNow())
      ensures Counted(VisitEvents(v), budget, rest, t) && lookups == old(lookups) + VisitLookups(v)
      ensures t == Continue && rest == budget && gasUsed < gasLimit ==>
        gasUsed > old(gasUsed) || (gasUsed == old(gasUsed) && old(pc) < |code| && pc > old(pc))
      decreases budget, Left(), 3, 1
    {
      hide SmallCodes, Performed;
      ghost var m := AtNow();
      rest := budget;
      if |code| <= pc {
        return Return([]), rest, Visit(m, false, None, Return([]));
      }
      var opcode := code[pc];
      pc := pc + 1;
      ghost var looks, call;
      t, rest, looks, call := Perform(opcode, codes, budget);
      v := Visit(m, looks, call, t);
    }

    /** The switch of tickEVMRaw. */
    method Perform(opcode: Byte, codes: Address -> seq<Byte>, budget: nat)
        returns (t: Tick, rest: nat, ghost looks: bool, ghost call: Option<CallEvent>)
      requires Valid() && gasUsed < HALF_32 && SmallCodes(codes)
      modifies this
      ensures Valid() && rest <= budget
      ensures Performed(codes, opcode, code, address, gasLimit, old(AtNow()), looks, call, AtNow(), t)
      ensures Counted(if call.Some? then CallEvents(call.value) else 0, budget, rest, t)
      ensures lookups == old(lookups) + (if looks then 1 else 0) + if call.Some? then CallLookups(call.value) else 0
      ensures t == Continue && rest == budget && gasUsed < gasLimit ==>
        gasUsed > old(gasUsed) || (gasUsed == old(gasUsed) && pc >= old(pc))
      decreases budget, Left(), 3, 0
    {
      hide CallOk, SmallCodes;
      looks, call := false, None;
      if IsCall(opcode) {
        ghost var e;
        looks := false;
        t, rest, e := GenerateCall(opcode, codes, budget);
        call := Some(e);
        looks := Reaches(opcode, |old(memory)|, old(gasUsed), gasLimit, e.args);
      } else {
        rest := budget;
        t := Execute(opcode);
        looks := opcode == 0x3B || opcode == 0x3C;
      }
    }

    /** The instructions other than calls. */
    method Execute(opcode: Byte) returns (t: Tick)
      requires Valid() && gasUsed < HALF_32 && !IsCall(opcode)
      modifies this
      ensures Valid() && Instruction(opcode, code, address, gasLimit, old(AtNow()), AtNow(), t)
      ensures lookups == old(lookups) + if opcode == 0x3B || opcode == 0x3C then 1 else 0
      ensures t == Continue && gasUsed < gasLimit ==>
        gasUsed > old(gasUsed) || (gasUsed == old(gasUsed) && pc >= old(pc))
    {
      hide BinaryDone, CopyDone, MLoadDone, MStoreDone, JumpDone, PushDone, DupDone, SwapDone, ReturnDone, Accessed;
      hide StackOnly, MemoryCost, CopyCharged, SimpleDone;
      t := Continue;
      if opcode == 0x00 {
        t := Return([]);
      } else if opcode == 0x01 || opcode == 0x03 || opcode == 0x10 {
        Binary(opcode);
      } else if opcode == 0x31 || opcode == 0x54 {
        t := Read(opcode);
      } else if opcode == 0x55 {
        t := Store();
      } else if opcode == 0x39 || opcode == 0x5E {
        t := Copy(opcode == 0x5E);
      } else if opcode == 0x30 || opcode == 0x50 || (0x58 <= opcode <= 0x5B) {
        Simple(opcode);
      } else if opcode == 0x51 {
        t := MLoad();
      } else if opcode == 0x52 {
        t := MStore();
      } else if opcode == 0x56 || opcode == 0x57 {
        t := Jump(opcode == 0x57);
      } else if 0x5F <= opcode {
        t := ExecuteHigh(opcode);
      } else if opcode == 0x3B || opcode == 0x3C {
        lookups := lookups + 1;
        t := Other();
      } else if OtherOpcode(opcode) {
        t := Other();
      } else {
        t := Failure([]);
      }
    }

    /** The instructions from PUSH0 on. */
    method ExecuteHigh(opcode: Byte) returns (t: Tick)
      requires Valid() && gasUsed < HALF_32 && !IsCall(opcode) && opcode >= 0x5F
      modifies this`pc, this`stack, this`memory, this`gasUsed, this`memoryGas
      ensures Valid() && Instruction(opcode, code, address, gasLimit, old(AtNow()), AtNow(), t)
      ensures t == Continue && gasUsed < gasLimit ==>
        gasUsed > old(gasUsed) || (gasUsed == old(gasUsed) && pc >= old(pc))
    {
      hide PushDone, DupDone, SwapDone, ReturnDone, LogDone, RevertDone, MemoryCost;
      t := Continue;
      if opcode <= 0x7F {
        PushBytes(opcode - 0x5F);
      } else if opcode <= 0x8F {
        t := Dup(opcode - 0x7F);
      } else if opcode <= 0x9F {
        Swap(opcode - 0x8F);
      } else if 0xA0 <= opcode <= 0xA4 {
        t := Log(opcode - 0xA0);
      } else if opcode == 0xF3 {
        t := DoReturn();
      } else if opcode == 0xFD {
        t := Revert();
      } else if opcode == 0xFE {
        gasUsed := gasLimit;
        t := Failure([]);
      } else {
        t := Failure([]);
      }
    }

    /** ADDRESS, POP, PC, MSIZE, GAS and JUMPDEST. */
    method Simple(opcode: Byte)
      requires Valid() && gasUsed < HALF_32
      requires opcode == 0x30 || opcode == 0x50 || 0x58 <= opcode <= 0x5B
      modifies this`stack, this`gasUsed
      ensures gasUsed == old(gasUsed) + FixedGas(opcode)
      ensures opcode == 0x30 ==> stack == old(stack) + [address]
      ensures opcode == 0x50 || 0x58 <= opcode <= 0x5A ==> SimpleDone(opcode, gasLimit, old(Now()), Now(), gasUsed)
      ensures opcode == 0x5B ==> stack == old(stack)
    {
      Charge(FixedGas(opcode));
      if opcode == 0x30 {
        Push(address);
      } else if opcode == 0x50 {
        var a := Pop();
      } else if opcode == 0x58 {
        Push((pc - 1) % TWO_256);
      } else if opcode == 0x59 {
        Push(|memory| % TWO_256);
      } else if opcode == 0x5A {
        Push(RemainingGas(gasLimit, gasUsed));
      }
    }

    /** BALANCE and SLOAD: any value; the address may cost 2500 more, a slot new to the frame 2000 more. */
    method Read(opcode: Byte) returns (t: Tick)
      requires gasUsed < HALF_32 && (opcode == 0x31 || opcode == 0x54)
      modifies this`stack, this`gasUsed
      ensures t == Continue && StackOnly(1, 1, old(Now()), Now())
      ensures gasUsed == old(gasUsed) + 100 || gasUsed == old(gasUsed) + 100 + if opcode == 0x54 then 2000 else TOUCH
    {
      var a := Pop();
      var missed: bool := *;
      if missed {
        Charge(if opcode == 0x54 then 2000 else TOUCH);
      }
      var b: Word := *;
      Push(b);
      Charge(100);
      return Continue;
    }

    method Store() returns (t: Tick)
      requires gasUsed < HALF_32
      modifies this`stack, this`gasUsed
      ensures t == Continue || t == Failure([])
      ensures gasUsed == old(gasUsed) + 100 && StackOnly(2, 0, old(Now()), Now())
    {
      var a := Pop();
      var b := Pop();
      Charge(100);
      var stored: bool := *;
      return if stored then Continue else Failure([]);
    }

    /** The opcodes whose effect is not modelled: some window of memory is grown and written, the stack is anything,
        and some charge within the bound is made. */
    method Other() returns (t: Tick)
      requires Valid() && gasUsed < HALF_32
      modifies this`stack, this`memory, this`gasUsed, this`memoryGas
      ensures Valid() && old(gasUsed) <= gasUsed <= old(gasUsed) + MAX_CHARGE
      ensures t == Continue || t == Failure([])
    {
      var offset: Word, size: Word, charge: nat := *, *, *;
      var ok := ExpandMemory(offset, size);
      if !ok {
        return Failure([]);
      }
      var written: seq<Byte> := *;
      if |written| == |memory| {
        memory := written;
      }
      stack := *;
      Charge(if charge <= OTHER_CHARGE then charge else OTHER_CHARGE);
      var fails: bool := *;
      return if fails then Failure([]) else Continue;
    }

    /** runEVMRaw. The method ends for every bytecode and every budget, so a run that does not halt enters callRaw
        overspent, or wraps a counter, without end. A run that never does halts, and overshoots its limit by at most
        one instruction's own charge and what nested lookups passed to it. */
    method RunEVMRaw(transferred: bool, codes: Address -> seq<Byte>, budget: nat)
        returns (t: Tick, rest: nat, ghost run: FrameRun)
      requires Valid() && gasUsed < HALF_32 && SmallCodes(codes)
      modifies this
      ensures Valid() && rest <= budget
      ensures t.Return? || t.Failure? || t.Exhausted?
      ensures run.start == old(AtNow()) && run.end == AtNow() && run.outcome == t
      ensures RunOk(codes, code, address, gasLimit, run) && (transferred ==> Paid(code, run))
      ensures Counted(Events(run.visits), budget, rest, t) && lookups == old(lookups) + Lookups(run.visits)
      ensures Events(run.visits) == 0 ==>
        t != Exhausted && gasUsed <= Max(gasLimit, old(gasUsed)) + MAX_CHARGE + Passed(run.visits)
      ensures transferred && run.start == Start() && Descends(codes, code, address, gasLimit, budget) ==> t == Exhausted
      decreases budget, Left(), 4
    {
      hide SmallCodes, VisitOk, VisitEvents, VisitLookups, Events, Lookups, Steps, Descends, Passed;
      ghost var start, visits := AtNow(), [];
      rest := budget;
      NoVisits(codes, code, address, gasLimit, start);
      if !transferred {
        run := FrameRun(start, visits, start, Failure([]));
        Conclusions(codes, code, address, gasLimit, run, false, budget);
        return Failure([]), rest, run;
      }
      if |code| > 0 {
        while true
          invariant Valid() && gasUsed < HALF_32 && rest <= budget
          invariant rest == budget ==> Left() <= old(Left())
          invariant Steps(codes, code, address, gasLimit, start, visits, AtNow())
          invariant if visits == [] then AtNow() == start else Last(visits).tick == Continue && gasUsed < gasLimit
          invariant Counted(Events(visits), budget, rest, Continue) && lookups == old(lookups) + Lookups(visits)
          decreases rest, visits == [] && gasUsed >= gasLimit, Left(), if pc < |code| then |code| - pc else 0
        {
          ghost var v;
          t, rest, v := TickEVMRaw(codes, rest);
          OneMore(codes, code, address, gasLimit, start, visits, v, AtNow());
          visits := visits + [v];
          if t != Continue {
            run := FrameRun(start, visits, AtNow(), t);
            Conclusions(codes, code, address, gasLimit, run, true, budget);
            return;
          }
          if gasUsed >= gasLimit {
            run := FrameRun(start, visits, AtNow(), Failure([]));
            Conclusions(codes, code, address, gasLimit, run, true, budget);
            return Failure([]), rest, run;
          }
        }
      }
      run := FrameRun(start, visits, AtNow(), Return([]));
      Conclusions(codes, code, address, gasLimit, run, true, budget);
      return Return([]), rest, run;
    }
  }

  // ---------- a program that never halts ----------

  /** Five zero operands, its own address, a request of 30 gas, and CALL. */
  const SELF_CALL: seq<Byte> := [0x5F, 0x5F, 0x5F, 0x5F, 0x5F, 0x30, 0x60, 0x1E, 0xF1]

  function SelfCallStack(address: Address): seq<Word> { [0, 0, 0, 0, 0, address, 30] }

  function SelfCallMoment(address: Address, k: nat): Moment
    requires k <= 7
  {
    Moment(View(if k == 7 then 8 else k, SelfCallStack(address)[..k], []),
           if k <= 5 then 2 * k else if k == 6 then 12 else 15)
  }

  lemma SelfCallStep(address: Address, k: nat)
    requires k < 7
    ensures Pushes(SELF_CALL, address, SelfCallMoment(address, k)) == Some(SelfCallMoment(address, k + 1))
  {
    hide ReadWord;
    OneByteWord();
    var all := SelfCallStack(address);
    assert all[..k + 1] == all[..k] + [all[k]];
    assert k < 5 ==> SELF_CALL[k + 1..k + 1] == [];
    assert SELF_CALL[7..8] == [0x1E];
  }

  lemma {:induction false} SelfCallStraight(address: Address, k: nat)
    requires k <= 7
    ensures Straight(SELF_CALL, address, 30, k) == Some(SelfCallMoment(address, k))
  {
    hide Pushes;
    if k > 0 {
      SelfCallStraight(address, k - 1);
      SelfCallStep(address, k - 1);
    }
  }

  lemma OneByteWord()
    ensures ReadWord([]) == 0 && ReadWord([0x1E]) == 30
  {
    assert FromBytes([0x1E]) == FromBytes([0x1E][..0]) * 256 + 30;
  }

  /** The call is made with 15 gas used, costs 100, and forwards 30 once more. */
  lemma {:induction false} SelfCallDescends(codes: Address -> seq<Byte>, address: Address, n: nat)
    requires address >= 16 && codes(address) == SELF_CALL
    ensures Descends(codes, SELF_CALL, address, 30, n)
    decreases n
  {
    hide Straight;
    SelfCallStraight(address, 7);
    var m := SelfCallMoment(address, 7);
    var v := m.view.(pc := 9);
    var args := CallArgs(30, address, 0, 0, 0, 0, 0);
    assert TopArgs(0xF1, v) == args;
    forall touched: bool
      ensures EntersOverspent(0xF1, 0, 15, 30, args, touched)
      ensures ForwardedGas(RemainingGas(30, EntryGas(0xF1, 0, 15, 30, args, touched)), 30) == 30
    {
      SelfCallOverspends(args, touched);
    }
    if n > 0 {
      SelfCallDescends(codes, address, n - 1);
    }
    hide EntersOverspent, TopArgs, ForwardedGas, RemainingGas, EntryGas;
    assert Plunges(0xF1, codes, address, 30, Moment(v, 15), n);
    assert Falls(codes, SELF_CALL, address, 30, m, n);
    assert Straight(SELF_CALL, address, 30, 7) == Some(m);
  }

  lemma SelfCallOverspends(args: CallArgs, touched: bool)
    requires args.argsOffset == args.argsSize == args.retOffset == args.retSize == 0 && args.target >= 16
    ensures EntersOverspent(0xF1, 0, 15, 30, args, touched)
    ensures ForwardedGas(RemainingGas(30, EntryGas(0xF1, 0, 15, 30, args, touched)), 30) == 30
  {
    assert EntryGas(0xF1, 0, 15, 30, args, touched) == if touched then 2615 else 115;
  }

  /** A run of it, whatever its finite length and depth, is one that was cut short. */
  lemma SelfCallNeverEnds(codes: Address -> seq<Byte>, address: Address, r: FrameRun)
    requires address >= 16 && codes(address) == SELF_CALL
    requires RunOk(codes, SELF_CALL, address, 30, r) && Paid(SELF_CALL, r) && r.start == Start()
    ensures r.outcome == Exhausted
  {
    hide RunOk, Descends;
    SelfCallDescends(codes, address, Events(r.visits));
    DescendsEvents(codes, SELF_CALL, address, 30, r, Events(r.visits));
  }

  /** However many overspent calls the run is allowed, it asks for one more: the code recurses for ever. */
  method RunSelfCall(codes: Address -> seq<Byte>, address: Address, budget: nat) returns (t: Tick)
    requires SmallCodes(codes) && address >= 16 && codes(address) == SELF_CALL
    ensures t == Exhausted
  {
    CostZero();
    SelfCallDescends(codes, address, budget);
    var machine := new Machine(SELF_CALL, address, 30);
    var rest;
    ghost var run;
    t, rest, run := machine.RunEVMRaw(true, codes, budget);
  }

  lemma CostZero()
    ensures MemoryCost(Words(0)) == 0
  {
  }

  lemma LowHalfSmaller(b: Word)
    requires ToInt(b) >= 0
    ensures 0 <= b % 0x1_0000 <= ToInt(b)
  {
    Numbers.CongMod(b, TWO_32);
    var low := b % TWO_32;
    Numbers.CongFrom(b, low, (b / TWO_32) * 0x1_0000, 0x1_0000);
  }
}
