/** Reference semantics of nested calls: every call works on a copy of the whole world state, which is kept on
    success and thrown away on failure. Contract code is any deterministic reaction to what it has observed. */
module Worlds {

  const TWO_256: int := 0x1_0000000000000000_0000000000000000_0000000000000000_0000000000000000
  const TWO_160: int := 0x1_0000000000000000_0000000000000000_00000000

  type Word = x: int | 0 <= x < TWO_256
  type Address = x: int | 0 <= x < TWO_160

  datatype Account = Account(balance: Word, nonce: nat)

  /** Accounts and slots not listed are zero. */
  datatype World = World(accounts: map<Address, Account>, storage: map<Address, map<Word, Word>>)
  {
    function AccountOf(a: Address): Account {
      if a in accounts then accounts[a] else Account(0, 0)
    }

    function Slot(a: Address, k: Word): Word {
      if a in storage && k in storage[a] then storage[a][k] else 0
    }

    function PutAccount(a: Address, account: Account): World {
      this.(accounts := accounts[a := account])
    }

    function PutSlot(a: Address, k: Word, v: Word): World {
      this.(storage := storage[a := (if a in storage then storage[a] else map[])[k := v]])
    }

    /** Wrapping credit, as payAccount does it. */
    function Pay(a: Address, amount: Word): World {
      var account := AccountOf(a);
      PutAccount(a, account.(balance := (account.balance + amount) % TWO_256))
    }

    function Deduct(a: Address, amount: Word): World
      requires amount <= AccountOf(a).balance
    {
      var account := AccountOf(a);
      PutAccount(a, account.(balance := account.balance - amount))
    }
  }

  datatype Kind = Ordinary | Delegate | Static

  datatype Action =
    | Stop(ret: Word)
    | Fail(ret: Word)
    | Balance(a: Address)
    | SLoad(k: Word)
    | SStore(k: Word, v: Word)
    | Call(kind: Kind, target: Address, value: Word, input: Word, gas: nat)

  datatype Observation =
    | Entered(caller: Address, self: Address, value: Word, input: Word)
    | Read(w: Word)
    | Stored
    | Returned(ok: bool, ret: Word)

  type Program = seq<Observation> -> Action

  datatype Code = NoCode | Code(program: Program)

  /** The immutable part of the chain: contract code and the precompiled contracts below address 16. */
  datatype Chain = Chain(code: Address -> Code, precompiled: (Address, Word) -> (bool, Word))

  datatype Frame = Frame(caller: Address, self: Address, value: Word, isStatic: bool, pays: bool)

  datatype Outcome = Outcome(world: World, ok: bool, ret: Word)

  function ChildFrame(f: Frame, kind: Kind, target: Address, value: Word): Frame {
    match kind
    case Ordinary => Frame(f.self, target, value, f.isStatic, true)
    case Delegate => Frame(f.caller, f.self, f.value, f.isStatic, false)
    case Static => Frame(f.self, target, 0, true, true)
  }

  /** The transfer at the start of a frame: credit first, then the balance check and debit. */
  function Enter(w: World, f: Frame): (World, bool) {
    if !f.pays || f.value == 0 then (w, true)
    else if f.isStatic then (w, false)
    else
      var paid := w.Pay(f.self, f.value);
      if paid.AccountOf(f.caller).balance < f.value then (paid, false)
      else (paid.Deduct(f.caller, f.value), true)
  }

  function Min(a: nat, b: nat): nat { if a <= b then a else b }

  /** What one action does: end the frame, or go on in a world with one more observation. */
  datatype Tick = Halt(ok: bool, ret: Word) | Next(world: World, seen: Observation)

  /** A whole frame. fuel bounds the number of actions, so running out of it is running out of gas. */
  function Run(chain: Chain, w: World, f: Frame, code: Code, input: Word, fuel: nat): Outcome
    decreases fuel, 2
  {
    var (w1, ok) := Enter(w, f);
    if !ok then Outcome(w1, false, 0)
    else
      match code
      case NoCode => Outcome(w1, true, 0)
      case Code(program) => Loop(chain, w1, f, program, [Entered(f.caller, f.self, f.value, input)], fuel)
  }

  /** The rest of a frame, after the given observations. */
  function Loop(chain: Chain, w: World, f: Frame, program: Program, history: seq<Observation>, fuel: nat): Outcome
    decreases fuel, 1
  {
    if fuel == 0 then Outcome(w, false, 0)
    else
      match Step(chain, w, f, program(history), fuel - 1)
      case Halt(ok, ret) => Outcome(w, ok, ret)
      case Next(w', seen) => Loop(chain, w', f, program, history + [seen], fuel - 1)
  }

  function Step(chain: Chain, w: World, f: Frame, action: Action, fuel: nat): Tick
    decreases fuel, 3
  {
    match action
    case Stop(ret) => Halt(true, ret)
    case Fail(ret) => Halt(false, ret)
    case Balance(a) => Next(w, Read(w.AccountOf(a).balance))
    case SLoad(k) => Next(w, Read(w.Slot(f.self, k)))
    case SStore(k, v) => if f.isStatic then Halt(false, 0) else Next(w.PutSlot(f.self, k, v), Stored)
    case Call(kind, target, value, input, gas) =>
      if target < 16 then
        var (ok, ret) := chain.precompiled(target, input);
        Next(w, Returned(ok, ret))
      else
        var sub := Run(chain, w, ChildFrame(f, kind, target, value), chain.code(target), input, Min(gas, fuel));
        Next(if sub.ok then sub.world else w, Returned(sub.ok, sub.ret))
  }

  lemma LoopUnfold(chain: Chain, w: World, f: Frame, program: Program, history: seq<Observation>, fuel: nat)
    ensures fuel == 0 ==> Loop(chain, w, f, program, history, fuel) == Outcome(w, false, 0)
    ensures fuel > 0 ==>
      match Step(chain, w, f, program(history), fuel - 1)
      case Halt(ok, ret) => Loop(chain, w, f, program, history, fuel) == Outcome(w, ok, ret)
      case Next(w', seen) =>
        Loop(chain, w, f, program, history, fuel) == Loop(chain, w', f, program, history + [seen], fuel - 1)
  {
  }

  /** A top-level transaction: changes reach the chain only on success. */
  function Execute(chain: Chain, w: World, sender: Address, recipient: Address, value: Word, input: Word,
      fuel: nat): World
  {
    var out := Run(chain, w, Frame(sender, recipient, value, false, true), chain.code(recipient), input, fuel);
    if out.ok then out.world else w
  }

  // ---------- static isolation ----------

  /** A static frame leaves the world exactly as it found it, whatever it and its descendants do. */
  lemma {:induction false} StaticRun(chain: Chain, w: World, f: Frame, code: Code, input: Word, fuel: nat)
    requires f.isStatic
    ensures Run(chain, w, f, code, input, fuel).world == w
    decreases fuel, 2
  {
    if Enter(w, f).1 && code.Code? {
      StaticLoop(chain, w, f, code.program, [Entered(f.caller, f.self, f.value, input)], fuel);
    }
  }

  lemma {:induction false} StaticLoop(chain: Chain, w: World, f: Frame, program: Program,
      history: seq<Observation>, fuel: nat)
    requires f.isStatic
    ensures Loop(chain, w, f, program, history, fuel).world == w
    decreases fuel, 1
  {
    if fuel > 0 {
      var action := program(history);
      StaticStep(chain, w, f, action, fuel - 1);
      var tick := Step(chain, w, f, action, fuel - 1);
      if tick.Next? {
        StaticLoop(chain, w, f, program, history + [tick.seen], fuel - 1);
      }
    }
  }

  lemma StaticStep(chain: Chain, w: World, f: Frame, action: Action, fuel: nat)
    requires f.isStatic
    ensures var tick := Step(chain, w, f, action, fuel); tick.Next? ==> tick.world == w
    decreases fuel, 3
  {
    if action.Call? && action.target >= 16 {
      StaticRun(chain, w, ChildFrame(f, action.kind, action.target, action.value), chain.code(action.target),
                action.input, Min(action.gas, fuel));
    }
  }

  // ---------- Ether conservation ----------

  ghost function Sum(m: map<Address, Account>): nat
    decreases |m|
  {
    if m == map[] then 0
    else
      var a :| a in m;
      assert |m - {a}| < |m| by { assert (m - {a}).Keys == m.Keys - {a}; }
      m[a].balance + Sum(m - {a})
  }

  lemma SizeWithout(m: map<Address, Account>, a: Address)
    requires a in m
    ensures |m - {a}| < |m|
  {
    assert (m - {a}).Keys == m.Keys - {a};
  }

  lemma {:induction false} SumWithout(m: map<Address, Account>, a: Address)
    requires a in m
    ensures Sum(m) == m[a].balance + Sum(m - {a})
    decreases |m|
  {
    var b :| b in m && Sum(m) == m[b].balance + Sum(m - {b});
    if a != b {
      SizeWithout(m, b);
      SizeWithout(m, a);
      SumWithout(m - {b}, a);
      SumWithout(m - {a}, b);
      assert m - {b} - {a} == m - {a} - {b};
    }
  }

  /** Supply: the sum of all balances. */
  ghost function Supply(w: World): nat {
    Sum(w.accounts)
  }

  lemma SupplyPut(w: World, a: Address, account: Account)
    ensures Supply(w.PutAccount(a, account)) == Supply(w) - w.AccountOf(a).balance + account.balance
  {
    var m, m' := w.accounts, w.accounts[a := account];
    SumWithout(m', a);
    if a in m {
      SumWithout(m, a);
      assert m' - {a} == m - {a};
    } else {
      assert m' - {a} == m;
    }
  }

  /** No two balances exceed the supply. */
  lemma SupplyBounds(w: World, a: Address, b: Address)
    ensures w.AccountOf(a).balance <= Supply(w)
    ensures a != b ==> w.AccountOf(a).balance + w.AccountOf(b).balance <= Supply(w)
  {
    if a in w.accounts {
      SumWithout(w.accounts, a);
      if b in w.accounts && a != b {
        SumWithout(w.accounts - {a}, b);
      }
    } else if b in w.accounts {
      SumWithout(w.accounts, b);
    }
  }

  /** Pay-before-deduct in wrapping arithmetic moves Ether without creating or destroying any. */
  lemma EnterConserves(w: World, f: Frame)
    requires Supply(w) < TWO_256
    ensures Enter(w, f).1 ==> Supply(Enter(w, f).0) == Supply(w)
  {
    if f.pays && f.value != 0 && !f.isStatic {
      var paid := w.Pay(f.self, f.value);
      var account := w.AccountOf(f.self);
      SupplyPut(w, f.self, paid.AccountOf(f.self));
      if f.value <= paid.AccountOf(f.caller).balance {
        SupplyBounds(w, f.self, f.caller);
        var left := paid.Deduct(f.caller, f.value);
        SupplyPut(paid, f.caller, left.AccountOf(f.caller));
      }
    }
  }

  /** When the entry transfer succeeds. Because the credit comes first, a frame that pays itself is not asked
      whether it had the funds: it fails only when the credit wraps. */
  lemma EnterSucceeds(w: World, f: Frame)
    requires f.pays && f.value != 0 && !f.isStatic
    ensures Enter(w, f).1 <==>
      if f.caller == f.self then w.AccountOf(f.self).balance + f.value < TWO_256
      else f.value <= w.AccountOf(f.caller).balance
  {
    var b := w.AccountOf(f.self).balance;
    assert (b + f.value) % TWO_256 == if b + f.value < TWO_256 then b + f.value else b + f.value - TWO_256;
  }

  lemma {:induction false} RunConserves(chain: Chain, w: World, f: Frame, code: Code, input: Word, fuel: nat)
    requires Supply(w) < TWO_256
    ensures var out := Run(chain, w, f, code, input, fuel); out.ok ==> Supply(out.world) == Supply(w)
    decreases fuel, 2
  {
    EnterConserves(w, f);
    if Enter(w, f).1 && code.Code? {
      LoopConserves(chain, Enter(w, f).0, f, code.program, [Entered(f.caller, f.self, f.value, input)], fuel);
    }
  }

  lemma {:induction false} LoopConserves(chain: Chain, w: World, f: Frame, program: Program,
      history: seq<Observation>, fuel: nat)
    requires Supply(w) < TWO_256
    ensures Supply(Loop(chain, w, f, program, history, fuel).world) == Supply(w)
    decreases fuel, 1
  {
    if fuel > 0 {
      var action := program(history);
      StepConserves(chain, w, f, action, fuel - 1);
      var tick := Step(chain, w, f, action, fuel - 1);
      if tick.Next? {
        LoopConserves(chain, tick.world, f, program, history + [tick.seen], fuel - 1);
      }
    }
  }

  lemma StepConserves(chain: Chain, w: World, f: Frame, action: Action, fuel: nat)
    requires Supply(w) < TWO_256
    ensures var tick := Step(chain, w, f, action, fuel); tick.Next? ==> Supply(tick.world) == Supply(w)
    decreases fuel, 3
  {
    if action.Call? && action.target >= 16 {
      RunConserves(chain, w, ChildFrame(f, action.kind, action.target, action.value), chain.code(action.target),
                   action.input, Min(action.gas, fuel));
    }
  }

  /** Whatever a transaction does, the sum of all balances is unchanged. */
  lemma ExecuteConserves(chain: Chain, w: World, sender: Address, recipient: Address, value: Word, input: Word,
      fuel: nat)
    requires Supply(w) < TWO_256
    ensures Supply(Execute(chain, w, sender, recipient, value, input, fuel)) == Supply(w)
  {
    RunConserves(chain, w, Frame(sender, recipient, value, false, true), chain.code(recipient), input, fuel);
  }

  ghost predicate SameBalances(m: map<Address, Account>, m': map<Address, Account>) {
    forall a: Address :: (if a in m then m[a].balance else 0) == (if a in m' then m'[a].balance else 0)
  }

  /** The sum only depends on the balances, not on which zero accounts are listed. */
  lemma {:induction false} SumPointwise(m: map<Address, Account>, m': map<Address, Account>)
    requires SameBalances(m, m')
    ensures Sum(m) == Sum(m')
    decreases |m| + |m'|
  {
    if a :| a in m {
      SumWithout(m, a);
      SizeWithout(m, a);
      if a in m' {
        SumWithout(m', a);
        SizeWithout(m', a);
        SumPointwise(m - {a}, m' - {a});
      } else {
        SumPointwise(m - {a}, m');
      }
    } else if a :| a in m' {
      SumWithout(m', a);
      SizeWithout(m', a);
      SumPointwise(m, m' - {a});
    } else {
      assert m == map[] == m';
    }
  }

  // ---------- what frames do to balances and slots ----------

  /** Value has gone from one account to another; all other balances, all nonces and all slots are as before. */
  ghost predicate Moved(w: World, w': World, src: Address, dst: Address, value: Word) {
    && (forall a: Address :: w'.AccountOf(a).nonce == w.AccountOf(a).nonce)
    && (forall a: Address :: w'.AccountOf(a).balance ==
          if a == src then w.AccountOf(a).balance - value
          else if a == dst then w.AccountOf(a).balance + value
          else w.AccountOf(a).balance)
    && SameSlots(w, w')
  }

  ghost predicate SameSlots(w: World, w': World) {
    forall a: Address, k: Word :: w'.Slot(a, k) == w.Slot(a, k)
  }

  /** One slot holds v, and every other slot what it did. */
  ghost predicate OneSlot(w: World, w': World, a: Address, k: Word, v: Word) {
    forall b: Address, j: Word :: w'.Slot(b, j) == if b == a && j == k then v else w.Slot(b, j)
  }

  lemma PutOneSlot(w: World, a: Address, k: Word, v: Word)
    ensures OneSlot(w, w.PutSlot(a, k, v), a, k, v) && w.PutSlot(a, k, v).accounts == w.accounts
  {
  }

  /** The entry transfer between two accounts: the funds go over, or the frame is refused. */
  lemma EnterMoves(w: World, f: Frame)
    requires f.pays && !f.isStatic && f.caller != f.self && Supply(w) < TWO_256
    ensures var (w', ok) := Enter(w, f);
      && (ok <==> f.value <= w.AccountOf(f.caller).balance)
      && (ok ==> Moved(w, w', f.caller, f.self, f.value))
  {
    SupplyBounds(w, f.self, f.caller);
    if f.value != 0 {
      EnterSucceeds(w, f);
    }
  }

  lemma HaltsNow(chain: Chain, w: World, f: Frame, program: Program, history: seq<Observation>, fuel: nat)
    requires fuel > 0
    ensures program(history).Stop? ==>
      Loop(chain, w, f, program, history, fuel) == Outcome(w, true, program(history).ret)
    ensures program(history).Fail? ==>
      Loop(chain, w, f, program, history, fuel) == Outcome(w, false, program(history).ret)
  {
    LoopUnfold(chain, w, f, program, history, fuel);
  }

  /** A program that stores and stops. */
  ghost predicate StoresAndStops(program: Program, entered: Observation, k: Word, v: Word) {
    program([entered]) == SStore(k, v) && program([entered, Stored]).Stop?
  }

  lemma StoreRun(chain: Chain, w: World, f: Frame, program: Program, entered: Observation, k: Word, v: Word,
      fuel: nat)
    requires StoresAndStops(program, entered, k, v) && fuel >= 2
    ensures var out := Loop(chain, w, f, program, [entered], fuel);
      if f.isStatic then !out.ok && out.world == w else out.ok && out.world == w.PutSlot(f.self, k, v)
  {
    LoopUnfold(chain, w, f, program, [entered], fuel);
    if !f.isStatic {
      assert [entered] + [Stored] == [entered, Stored];
      HaltsNow(chain, w.PutSlot(f.self, k, v), f, program, [entered, Stored], fuel - 1);
    }
  }

  /** A transfer to an account without code moves exactly the value if the funds suffice, and nothing otherwise. */
  lemma PlainTransfer(chain: Chain, w: World, sender: Address, recipient: Address, value: Word, input: Word, fuel: nat)
    requires chain.code(recipient) == NoCode && sender != recipient && Supply(w) < TWO_256
    ensures var w' := Execute(chain, w, sender, recipient, value, input, fuel);
      if value <= w.AccountOf(sender).balance then Moved(w, w', sender, recipient, value) else w' == w
  {
    EnterMoves(w, Frame(sender, recipient, value, false, true));
  }

  /** A transfer to oneself changes no balance, no nonce and no slot, with or without the funds. */
  lemma SelfTransfer(chain: Chain, w: World, sender: Address, value: Word, input: Word, fuel: nat)
    requires chain.code(sender) == NoCode
    ensures var w' := Execute(chain, w, sender, sender, value, input, fuel);
      (forall a: Address :: w'.AccountOf(a) == w.AccountOf(a)) && SameSlots(w, w')
  {
    var b: int, f := w.AccountOf(sender).balance, Frame(sender, sender, value, false, true);
    if value != 0 {
      EnterSucceeds(w, f);
      assert b + value < TWO_256 ==> (b + value) % TWO_256 == b + value;
    }
  }

  /** A recipient that stores and stops keeps the value sent and leaves the slot on the chain. */
  lemma StoreReachesChain(chain: Chain, w: World, sender: Address, recipient: Address, value: Word, input: Word,
      program: Program, k: Word, v: Word, fuel: nat)
    requires chain.code(recipient) == Code(program) && sender != recipient && Supply(w) < TWO_256 && fuel >= 2
    requires StoresAndStops(program, Entered(sender, recipient, value, input), k, v)
    ensures var w' := Execute(chain, w, sender, recipient, value, input, fuel);
      if value <= w.AccountOf(sender).balance then
        && OneSlot(w, w', recipient, k, v)
        && Moved(w, World(w'.accounts, w.storage), sender, recipient, value)
      else w' == w
  {
    var f := Frame(sender, recipient, value, false, true);
    EnterMoves(w, f);
    var (paid, ok) := Enter(w, f);
    if ok {
      StoreRun(chain, paid, f, program, Entered(sender, recipient, value, input), k, v, fuel);
      PutOneSlot(paid, recipient, k, v);
    }
  }

  /** A recipient that gives up, or gets no step to run, leaves the chain as it was, the transfer included. */
  lemma FailureKeepsChain(chain: Chain, w: World, sender: Address, recipient: Address, value: Word, input: Word,
      program: Program, fuel: nat)
    requires chain.code(recipient) == Code(program)
    requires fuel == 0 || program([Entered(sender, recipient, value, input)]).Fail?
    ensures Execute(chain, w, sender, recipient, value, input, fuel) == w
  {
    var f := Frame(sender, recipient, value, false, true);
    if fuel > 0 {
      HaltsNow(chain, Enter(w, f).0, f, program, [Entered(sender, recipient, value, input)], fuel);
    }
  }

  /** Within a frame, a load sees the last store to its key, and stores to other keys do not disturb it. */
  lemma LoadAfterStore(chain: Chain, w: World, f: Frame, k: Word, v: Word, j: Word, fuel: nat)
    requires !f.isStatic
    ensures Step(chain, w, f, SStore(k, v), fuel).Next? && Step(chain, w, f, SLoad(j), fuel).Next?
    ensures var stored := Step(chain, w, f, SStore(k, v), fuel).world;
      && Step(chain, stored, f, SLoad(k), fuel) == Next(stored, Read(v))
      && (j != k ==> Step(chain, stored, f, SLoad(j), fuel) == Next(stored, Step(chain, w, f, SLoad(j), fuel).seen))
    ensures Step(chain, w, f, SLoad(j), fuel).world == w
  {
  }

  /** What a transfer moved, BALANCE shows. */
  lemma BalanceAfterMove(chain: Chain, w: World, w': World, f: Frame, src: Address, dst: Address, value: Word,
      a: Address, fuel: nat)
    requires Moved(w, w', src, dst, value) && src != dst
    ensures Step(chain, w, f, Balance(a), fuel).Next? && Step(chain, w, f, Balance(a), fuel).seen.Read?
    ensures var before, after := Step(chain, w, f, Balance(a), fuel).seen.w, Step(chain, w', f, Balance(a), fuel);
      after == Next(w', Read(if a == src then before - value else if a == dst then before + value else before))
  {
    assert w'.AccountOf(a).balance == if a == src then w.AccountOf(a).balance - value
      else if a == dst then w.AccountOf(a).balance + value else w.AccountOf(a).balance;
  }

  /** Whatever the callee is, a failed call leaves the world as it was. */
  lemma FailedCall(chain: Chain, w: World, f: Frame, kind: Kind, target: Address, value: Word, input: Word, gas: nat,
      fuel: nat)
    ensures var tick := Step(chain, w, f, Call(kind, target, value, input, gas), fuel);
      tick.Next? && tick.seen.Returned? && (!tick.seen.ok ==> tick.world == w)
  {
  }

  /** A call of a precompiled contract gives that contract's answer and changes nothing. */
  lemma PrecompiledCall(chain: Chain, w: World, f: Frame, kind: Kind, target: Address, value: Word, input: Word,
      gas: nat, fuel: nat)
    requires target < 16
    ensures var (ok, ret) := chain.precompiled(target, input);
      Step(chain, w, f, Call(kind, target, value, input, gas), fuel) == Next(w, Returned(ok, ret))
  {
  }

  /** A static frame cannot send value. */
  lemma StaticPays(chain: Chain, w: World, f: Frame, target: Address, value: Word, input: Word, gas: nat, fuel: nat)
    requires f.isStatic && target >= 16 && value != 0
    ensures Step(chain, w, f, Call(Ordinary, target, value, input, gas), fuel) == Next(w, Returned(false, 0))
  {
  }

  /** What the callee of an ordinary call, a delegate call and a static call is told of itself. */
  function EnteredBy(f: Frame, kind: Kind, target: Address, value: Word, input: Word): Observation {
    match kind
    case Ordinary => Entered(f.self, target, value, input)
    case Delegate => Entered(f.caller, f.self, f.value, input)
    case Static => Entered(f.self, target, 0, input)
  }

  /** An ordinary call with value: the calling frame's own account pays the target's, whether the target has no code
      or has code that stops; if the funds do not suffice, the call fails. */
  lemma CallMoves(chain: Chain, w: World, f: Frame, target: Address, value: Word, input: Word, gas: nat, fuel: nat)
    requires target >= 16 && target != f.self && !f.isStatic && Supply(w) < TWO_256
    requires chain.code(target).NoCode? || (gas > 0 && fuel > 0 &&
      chain.code(target).program([EnteredBy(f, Ordinary, target, value, input)]).Stop?)
    ensures var tick := Step(chain, w, f, Call(Ordinary, target, value, input, gas), fuel);
      && tick.Next? && tick.seen.Returned?
      && (tick.seen.ok <==> value <= w.AccountOf(f.self).balance)
      && (if tick.seen.ok then Moved(w, tick.world, f.self, target, value) else tick.world == w)
  {
    var child := Frame(f.self, target, value, false, true);
    EnterMoves(w, child);
    if chain.code(target).Code? {
      HaltsNow(chain, Enter(w, child).0, child, chain.code(target).program, [Entered(f.self, target, value, input)],
              Min(gas, fuel));
    }
  }

  /** The caller is told how the callee ended and what it gave back; a callee with code and no step to run fails. */
  lemma CallAnswers(chain: Chain, w: World, f: Frame, kind: Kind, target: Address, input: Word, gas: nat,
      program: Program, fuel: nat)
    requires target >= 16 && chain.code(target) == Code(program)
    ensures var tick := Step(chain, w, f, Call(kind, target, 0, input, gas), fuel);
      var first := program([EnteredBy(f, kind, target, 0, input)]);
      && tick.Next?
      && (gas == 0 || fuel == 0 ==> tick.seen == Returned(false, 0))
      && (gas > 0 && fuel > 0 && first.Stop? ==> tick.seen == Returned(true, first.ret))
      && (gas > 0 && fuel > 0 && first.Fail? ==> tick.seen == Returned(false, first.ret))
  {
    var child := ChildFrame(f, kind, target, 0);
    assert Enter(w, child) == (w, true);
    if gas > 0 && fuel > 0 {
      HaltsNow(chain, w, child, program, [EnteredBy(f, kind, target, 0, input)], Min(gas, fuel));
    }
  }

  /** Where the store of a callee that stores and stops lands: at the target in an ordinary call, at the calling frame's
      own address in a delegate call, nowhere in a static one. */
  lemma CalleeStores(chain: Chain, w: World, f: Frame, kind: Kind, target: Address, input: Word, gas: nat,
      program: Program, k: Word, v: Word, fuel: nat)
    requires target >= 16 && chain.code(target) == Code(program) && gas >= 2 && fuel >= 2
    requires StoresAndStops(program, EnteredBy(f, kind, target, 0, input), k, v)
    ensures var tick := Step(chain, w, f, Call(kind, target, 0, input, gas), fuel);
      && tick.Next? && tick.seen.Returned? && (tick.seen.ok <==> !f.isStatic && kind != Static)
      && (if tick.seen.ok then
            OneSlot(w, tick.world, if kind.Delegate? then f.self else target, k, v)
            && tick.world.accounts == w.accounts
          else tick.world == w)
  {
    var child := ChildFrame(f, kind, target, 0);
    assert Enter(w, child) == (w, true);
    StoreRun(chain, w, child, program, EnteredBy(f, kind, target, 0, input), k, v, Min(gas, fuel));
    PutOneSlot(w, if kind.Delegate? then f.self else target, k, v);
  }
}
