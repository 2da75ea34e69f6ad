/** The simulation context of one call frame as the code keeps it: mutable caches over a parent context or the
    chain, and the run of a frame with its nested calls, proved equal to the reference semantics. */
module Contexts {
  import opened Worlds
  import opened Overlay

  const TWO_32: int := 0x1_0000_0000

  type Gas = x: int | 0 <= x < TWO_32

  /** The bottom provider: it answers every account and slot request. */
  class Provider {
    var world: World

    constructor (w: World)
      ensures world == w
    {
      world := w;
    }

    method UpdateAccount(a: Address, account: Account)
      modifies this
      ensures world == old(world).PutAccount(a, account)
    {
      world := world.PutAccount(a, account);
    }

    method UpdateStorageSlots(a: Address, entries: map<Word, Word>)
      modifies this
      ensures world.accounts == old(world.accounts)
      ensures world.storage == MergeStorage(old(world.storage), map[a := entries])
    {
      world := world.(storage := world.storage[a := SlotsOf(world.storage, a) + entries]);
      MergeOne(old(world.storage), a, entries);
    }
  }

  lemma PayPuts(w: World, a: Address, amount: Word)
    ensures var account := w.AccountOf(a);
      w.Pay(a, amount) == w.PutAccount(a, account.(balance := (account.balance + amount) % TWO_256))
  {
  }

  lemma DeductPuts(w: World, a: Address, amount: Word)
    ensures var account := w.AccountOf(a);
      amount <= account.balance ==>
        w.Deduct(a, amount) == w.PutAccount(a, account.(balance := account.balance - amount))
  {
  }

  datatype TickOutcome = Halted(ok: bool, ret: Word) | Saw(seen: Observation)

  class Context {
    const provider: Provider
    const parent: Context?
    const caller: Address
    const address: Address
    const value: Word
    const isStatic: bool
    ghost const Repr: set<Context>

    var accounts: map<Address, Account>
    var storage: map<Address, map<Word, Word>>
    var gasUsed: Gas

    constructor (provider: Provider, parent: Context?, caller: Address, address: Address, value: Word, isStatic: bool)
      requires parent != null ==> parent.Valid() && parent.provider == provider
      ensures Valid() && fresh(this)
      ensures this.provider == provider && this.parent == parent && this.caller == caller
      ensures this.address == address && this.value == value && this.isStatic == isStatic
      ensures accounts == map[] && storage == map[] && gasUsed == 0
      ensures Repr == {this} + (if parent == null then {} else parent.Repr)
    {
      this.provider, this.parent, this.caller, this.address := provider, parent, caller, address;
      this.value, this.isStatic := value, isStatic;
      accounts, storage, gasUsed := map[], map[], 0;
      Repr := {this} + (if parent == null then {} else parent.Repr);
    }

    ghost predicate Valid()
      decreases Repr
    {
      if parent == null then Repr == {this}
      else Repr == {this} + parent.Repr && this !in parent.Repr && parent.provider == provider && parent.Valid()
    }

    ghost function Top(): Layer
      reads this
    {
      Layer(accounts, storage)
    }

    /** The stack of layers from this frame out to the top-level one. */
    ghost function Layers(): (ls: seq<Layer>)
      requires Valid()
      reads Repr
      ensures ls != [] && ls[0] == Top() && ls[1..] == Below()
      decreases Repr, 1
    {
      [Top()] + Below()
    }

    ghost function Below(): seq<Layer>
      requires Valid()
      reads if parent == null then {} else parent.Repr
      decreases Repr, 0
    {
      if parent == null then [] else parent.Layers()
    }

    /** getAccountInfo. */
    method GetAccountInfo(a: Address) returns (account: Account)
      requires Valid()
      modifies Repr`accounts
      ensures SameViews(old(Layers()), Layers(), provider.world)
      ensures account == LookupAccount(old(Layers()), provider.world, a)
      ensures a in accounts && accounts[a] == account
      decreases Repr
    {
      ghost var ls := Layers();
      if a in accounts {
        SameViewsRefl(ls, provider.world);
        return accounts[a];
      }
      if parent == null {
        account := provider.world.AccountOf(a);
        SameViewsRefl([], provider.world);
      } else {
        account := parent.GetAccountInfo(a);
      }
      accounts := accounts[a := account];
      CacheAccount(ls[0], ls[1..], Below(), provider.world, a);
      assert [ls[0]] + ls[1..] == ls;
    }

    /** getStorageSlot, by way of getStorageSlots with one key. */
    method GetStorageSlot(a: Address, k: Word) returns (v: Word)
      requires Valid()
      modifies Repr`storage
      ensures SameViews(old(Layers()), Layers(), provider.world)
      ensures v == LookupSlot(old(Layers()), provider.world, a, k)
      decreases Repr
    {
      ghost var ls := Layers();
      if a in storage && k in storage[a] {
        SameViewsRefl(ls, provider.world);
        return storage[a][k];
      }
      if parent == null {
        v := provider.world.Slot(a, k);
        SameViewsRefl([], provider.world);
      } else {
        v := parent.GetStorageSlot(a, k);
      }
      storage := storage[a := SlotsOf(storage, a)[k := v]];
      CacheSlot(ls[0], ls[1..], Below(), provider.world, a, k);
      assert [ls[0]] + ls[1..] == ls;
    }

    /** sload: a slot not yet in this frame's map costs 2000 more. */
    method SLoad(k: Word) returns (v: Word)
      requires Valid()
      modifies Repr`storage, this`gasUsed
      ensures SameViews(old(Layers()), Layers(), provider.world)
      ensures v == LookupSlot(old(Layers()), provider.world, address, k)
      ensures gasUsed == if old(Top().HasSlot(address, k)) then old(gasUsed) else (old(gasUsed) + 2000) % TWO_32
    {
      if !(address in storage && k in storage[address]) {
        gasUsed := (gasUsed + 2000) % TWO_32;
      }
      v := GetStorageSlot(address, k);
    }

    /** sstore: the previous value is fetched through the parents even though only its caching matters. */
    method SStore(k: Word, v: Word, ghost w: World) returns (ok: bool)
      requires Valid() && Shows(Layers(), provider.world, w)
      modifies Repr`storage
      ensures ok == !isStatic
      ensures SameViews(old(Below()), Below(), provider.world)
      ensures Shows(Layers(), provider.world, if isStatic then w else w.PutSlot(address, k, v))
    {
      hide Shows, SameViews, SameView;
      ghost var ls := Layers();
      SameViewsRefl(ls[1..], provider.world);
      if isStatic {
        return false;
      }
      if !(address in storage && k in storage[address]) {
        var previous := GetStorageSlot(address, k);
        KeepShowing(ls[1..], ls, Layers(), provider.world, w, address, k);
      }
      ghost var mid := Layers();
      storage := storage[address := SlotsOf(storage, address)[k := v]];
      WriteSlot(mid[0], mid[1..], provider.world, w, address, k, v);
      assert [mid[0]] + mid[1..] == mid;
      return true;
    }

    /** The entry of runEVMRaw: pay the callee, then check and debit the caller. */
    method Enter(pays: bool, ghost w: World) returns (ok: bool)
      requires Valid() && Shows(Layers(), provider.world, w)
      modifies Repr`accounts
      ensures SameViews(old(Below()), Below(), provider.world)
      ensures var (w', ok') := Worlds.Enter(w, Frame(caller, address, value, isStatic, pays));
              ok == ok' && Shows(Layers(), provider.world, w')
    {
      hide Shows, SameViews, SameView;
      SameViewsRefl(Below(), provider.world);
      if !pays || value == 0 {
        return true;
      }
      var paid := PayAccount(address, value, w);
      if !paid {
        return false;
      }
      ghost var mid := Below();
      ok := DeductAccount(caller, value, w.Pay(address, value));
      SameViewsTrans(old(Below()), mid, Below(), provider.world);
    }

    /** Reading an account for a frame known to show w. */
    method AccountShown(a: Address, ghost w: World) returns (account: Account)
      requires Valid() && Shows(Layers(), provider.world, w)
      modifies Repr`accounts
      ensures account == w.AccountOf(a) && Shows(Layers(), provider.world, w)
      ensures SameViews(old(Below()), Below(), provider.world)
    {
      hide Shows, SameViews, SameView;
      account := GetAccountInfo(a);
      SameViewsRefl(old(Below()), provider.world);
      KeepShowing(old(Below()), old(Layers()), Layers(), provider.world, w, a, 0);
    }

    method SlotShown(k: Word, ghost w: World) returns (v: Word)
      requires Valid() && Shows(Layers(), provider.world, w)
      modifies Repr`storage, this`gasUsed
      ensures v == w.Slot(address, k) && Shows(Layers(), provider.world, w)
      ensures SameViews(old(Below()), Below(), provider.world)
    {
      hide Shows, SameViews, SameView;
      v := SLoad(k);
      SameViewsRefl(old(Below()), provider.world);
      KeepShowing(old(Below()), old(Layers()), Layers(), provider.world, w, address, k);
    }

    method SetAccount(a: Address, account: Account, ghost w: World)
      requires Valid() && Shows(Layers(), provider.world, w)
      modifies this`accounts
      ensures Shows(Layers(), provider.world, w.PutAccount(a, account)) && Below() == old(Below())
    {
      hide Shows;
      ghost var ls := Layers();
      accounts := accounts[a := account];
      WriteAccount(ls[0], ls[1..], provider.world, w, a, account);
      assert [ls[0]] + ls[1..] == ls;
    }

    method PayAccount(a: Address, amount: Word, ghost w: World) returns (ok: bool)
      requires Valid() && Shows(Layers(), provider.world, w)
      modifies Repr`accounts
      ensures ok == !isStatic
      ensures SameViews(old(Below()), Below(), provider.world)
      ensures Shows(Layers(), provider.world, if isStatic then w else w.Pay(a, amount))
    {
      hide Shows, SameViews, SameView, World.Pay, World.AccountOf, World.PutAccount, Context.Layers, Context.Below;
      SameViewsRefl(Below(), provider.world);
      if isStatic {
        return false;
      }
      PayPuts(w, a, amount);
      var account := AccountShown(a, w);
      SetAccount(a, account.(balance := (account.balance + amount) % TWO_256), w);
      return true;
    }

    method DeductAccount(a: Address, amount: Word, ghost w: World) returns (ok: bool)
      requires Valid() && Shows(Layers(), provider.world, w)
      modifies Repr`accounts
      ensures ok == (!isStatic && amount <= w.AccountOf(a).balance)
      ensures SameViews(old(Below()), Below(), provider.world)
      ensures Shows(Layers(), provider.world, if ok then w.Deduct(a, amount) else w)
    {
      hide Shows, SameViews, SameView, World.Deduct, World.AccountOf, World.PutAccount, Context.Layers, Context.Below;
      SameViewsRefl(Below(), provider.world);
      if isStatic {
        return false;
      }
      var account := AccountShown(a, w);
      ok := amount <= account.balance;
      if ok {
        DeductPuts(w, a, amount);
        var left: Word := account.balance - amount;
        SetAccount(a, account.(balance := left), w);
      }
    }

    method UpdateAccount(a: Address, account: Account) returns (ok: bool)
      modifies this`accounts
      ensures ok == !isStatic
      ensures accounts == if isStatic then old(accounts) else old(accounts)[a := account]
    {
      if isStatic {
        return false;
      }
      accounts := accounts[a := account];
      return true;
    }

    method UpdateStorageSlots(a: Address, entries: map<Word, Word>) returns (ok: bool)
      modifies this`storage
      ensures ok == !isStatic
      ensures storage == if isStatic then old(storage) else MergeStorage(old(storage), map[a := entries])
    {
      if isStatic {
        return false;
      }
      MergeOne(storage, a, entries);
      storage := storage[a := SlotsOf(storage, a) + entries];
      return true;
    }

    /** writeChangesTo a parent context. */
    method WriteChangesTo(dst: Context)
      requires dst != this
      modifies dst`accounts, dst`storage
      ensures dst.Top() == if dst.isStatic then old(dst.Top()) else Merge(old(dst.Top()), Top())
    {
      var todo := accounts.Keys;
      assert accounts - todo == map[];
      while todo != {}
        invariant todo <= accounts.Keys
        invariant dst.storage == old(dst.storage)
        invariant dst.accounts == if dst.isStatic then old(dst.accounts) else old(dst.accounts) + (accounts - todo)
      {
        var a :| a in todo;
        var _ := dst.UpdateAccount(a, accounts[a]);
        assert accounts - (todo - {a}) == (accounts - todo)[a := accounts[a]];
        todo := todo - {a};
      }
      assert accounts - todo == accounts;
      var left := storage.Keys;
      assert storage - left == map[];
      MergeEmpty(dst.storage);
      while left != {}
        invariant left <= storage.Keys
        invariant dst.accounts == if dst.isStatic then old(dst.accounts) else old(dst.accounts) + accounts
        invariant dst.storage ==
          if dst.isStatic then old(dst.storage) else MergeStorage(old(dst.storage), storage - left)
      {
        var a :| a in left;
        var _ := dst.UpdateStorageSlots(a, storage[a]);
        MergeStep(old(dst.storage), storage, left, a);
        left := left - {a};
      }
      assert storage - left == storage;
    }

    ghost function FrameOf(pays: bool): Frame {
      Frame(caller, address, value, isStatic, pays)
    }

    /** runEVMRaw: the transfer, then the contract's reactions one after the other. w is the world this frame
        shows at entry; at exit it shows the world of the reference run, and no frame below sees a change. */
    method RunEVMRaw(chain: Chain, pays: bool, code: Code, input: Word, fuel: nat, ghost w: World)
        returns (ok: bool, ret: Word)
      requires Valid() && Shows(Layers(), provider.world, w)
      modifies Repr`accounts, Repr`storage, Repr`gasUsed
      ensures SameViews(old(Below()), Below(), provider.world)
      ensures var out := Run(chain, w, FrameOf(pays), code, input, fuel);
              ok == out.ok && ret == out.ret && Shows(Layers(), provider.world, out.world)
      decreases fuel, 2
    {
      hide Shows, SameViews, SameView, Loop;
      var entered := Enter(pays, w);
      if !entered {
        return false, 0;
      }
      if code.NoCode? {
        // no code at the destination: an externally owned account
        return true, 0;
      }
      ghost var below := Below();
      ok, ret := RunCode(chain, pays, code.program, input, fuel, Worlds.Enter(w, FrameOf(pays)).0);
      SameViewsTrans(old(Below()), below, Below(), provider.world);
    }

    /** The instruction loop of runEVMRaw. */
    method RunCode(chain: Chain, pays: bool, program: Program, input: Word, fuel: nat, ghost w: World)
        returns (ok: bool, ret: Word)
      requires Valid() && Shows(Layers(), provider.world, w)
      modifies Repr`accounts, Repr`storage, Repr`gasUsed
      ensures SameViews(old(Below()), Below(), provider.world)
      ensures var out := Loop(chain, w, FrameOf(pays), program, [Entered(caller, address, value, input)], fuel);
              ok == out.ok && ret == out.ret && Shows(Layers(), provider.world, out.world)
      decreases fuel, 1
    {
      hide Shows, SameViews, SameView, Step, Loop;
      ghost var f, cur := FrameOf(pays), w;
      var left, history := fuel, [Entered(caller, address, value, input)];
      SameViewsRefl(Below(), provider.world);
      while left > 0
        invariant 0 <= left <= fuel
        invariant Shows(Layers(), provider.world, cur)
        invariant SameViews(old(Below()), Below(), provider.world)
        invariant Loop(chain, cur, f, program, history, left)
               == Loop(chain, w, f, program, [Entered(caller, address, value, input)], fuel)
      {
        LoopUnfold(chain, cur, f, program, history, left);
        left := left - 1;
        ghost var before := Below();
        var action := program(history);
        var tick := TickEVMRaw(chain, pays, action, left, cur);
        SameViewsTrans(old(Below()), before, Below(), provider.world);
        match tick {
          case Halted(fine, r) => return fine, r;
          case Saw(seen) =>
            cur := Step(chain, cur, f, action, left).world;
            history := history + [seen];
        }
      }
      LoopUnfold(chain, cur, f, program, history, 0);
      return false, 0;
    }

    /** tickEVMRaw: one action, with the effect and the observation of the reference step. */
    method TickEVMRaw(chain: Chain, pays: bool, action: Action, fuel: nat, ghost w: World) returns (tick: TickOutcome)
      requires Valid() && Shows(Layers(), provider.world, w)
      modifies Repr`accounts, Repr`storage, Repr`gasUsed
      ensures SameViews(old(Below()), Below(), provider.world)
      ensures match Step(chain, w, FrameOf(pays), action, fuel)
              case Halt(ok, ret) => tick == Halted(ok, ret) && Shows(Layers(), provider.world, w)
              case Next(w', seen) => tick == Saw(seen) && Shows(Layers(), provider.world, w')
      decreases fuel, 4
    {
      hide Shows, SameViews, SameView, Run, Context.Layers, Context.Below;
      SameViewsRefl(Below(), provider.world);
      match action {
        case Stop(ret) => return Halted(true, ret);
        case Fail(ret) => return Halted(false, ret);
        case Balance(a) =>
          var account := AccountShown(a, w);
          return Saw(Read(account.balance));
        case SLoad(k) =>
          var v := SlotShown(k, w);
          return Saw(Read(v));
        case SStore(k, v) =>
          var stored := this.SStore(k, v, w);
          return if stored then Saw(Stored) else Halted(false, 0);
        case Call(kind, target, amount, input, gas) =>
          if target < 16 {
            var (ok, ret) := chain.precompiled(target, input);
            return Saw(Returned(ok, ret));
          }
          var ok, ret := CallRaw(chain, kind, target, amount, input, if gas <= fuel then gas else fuel, w);
          return Saw(Returned(ok, ret));
      }
    }

    /** callRaw: run a child context and commit it on success, except after a static call. */
    method CallRaw(chain: Chain, kind: Kind, target: Address, amount: Word, input: Word, gas: nat, ghost w: World)
        returns (ok: bool, ret: Word)
      requires Valid() && Shows(Layers(), provider.world, w) && target >= 16
      modifies Repr`accounts, Repr`storage, Repr`gasUsed
      ensures SameViews(old(Below()), Below(), provider.world)
      ensures var sub := Run(chain, w, ChildFrame(FrameOf(true), kind, target, amount), chain.code(target), input, gas);
              ok == sub.ok && ret == sub.ret && Shows(Layers(), provider.world, if ok then sub.world else w)
      decreases gas, 3
    {
      hide Shows, SameViews, SameView, Run;
      var src := if kind.Delegate? then caller else address;
      var dst := if kind.Delegate? then address else target;
      var sent := if kind.Delegate? then value else if kind.Static? then 0 else amount;
      ghost var ls := Layers();
      EmptyShows(ls, provider.world, w);
      var child := new Context(provider, this, src, dst, sent, isStatic || kind.Static?);
      assert child.Layers() == [Layer(map[], map[])] + ls;
      ok, ret := child.RunEVMRaw(chain, !kind.Delegate?, chain.code(target), input, gas, w);
      ghost var f := child.FrameOf(!kind.Delegate?);
      assert f == ChildFrame(FrameOf(true), kind, target, amount);
      ShowsSame(ls, Layers(), provider.world, w);
      SameBelow(ls, Layers(), provider.world);
      if f.isStatic {
        StaticRun(chain, w, f, chain.code(target), input, gas);
      }
      if ok && !kind.Static? {
        Commit(child, w, Run(chain, w, f, chain.code(target), input, gas).world);
      }
    }

    /** Writing a successful child's entries: the parent then shows what the child showed, unless it is static. */
    method Commit(child: Context, ghost w: World, ghost w': World)
      requires Valid() && child.Valid() && child.parent == this
      requires Shows(Layers(), provider.world, w) && Shows(child.Layers(), provider.world, w')
      modifies this`accounts, this`storage
      ensures Shows(Layers(), provider.world, if isStatic then w else w') && Below() == old(Below())
    {
      hide Shows, SameView;
      ghost var mine, below := Top(), Below();
      assert child.Layers() == [child.Top()] + ([mine] + below);
      CommitShows(child.Top(), mine, below, provider.world);
      ghost var seen := child.Layers();
      child.WriteChangesTo(this);
      assert Layers() == [Top()] + below;
      if !isStatic {
        ShowsView(seen, Layers(), provider.world, w');
      }
    }

    /** writeChangesTo the chain. */
    method WriteChangesToChain(dst: Provider)
      modifies dst
      ensures dst.world == World(old(dst.world.accounts) + accounts, MergeStorage(old(dst.world.storage), storage))
    {
      var todo := accounts.Keys;
      assert accounts - todo == map[];
      while todo != {}
        invariant todo <= accounts.Keys
        invariant dst.world == World(old(dst.world.accounts) + (accounts - todo), old(dst.world.storage))
      {
        var a :| a in todo;
        dst.UpdateAccount(a, accounts[a]);
        assert accounts - (todo - {a}) == (accounts - todo)[a := accounts[a]];
        todo := todo - {a};
      }
      assert accounts - todo == accounts;
      var left := storage.Keys;
      assert storage - left == map[];
      MergeEmpty(dst.world.storage);
      while left != {}
        invariant left <= storage.Keys
        invariant dst.world.accounts == old(dst.world.accounts) + accounts
        invariant dst.world.storage == MergeStorage(old(dst.world.storage), storage - left)
      {
        var a :| a in left;
        dst.UpdateStorageSlots(a, storage[a]);
        MergeStep(old(dst.world.storage), storage, left, a);
        left := left - {a};
      }
      assert storage - left == storage;
    }
  }

  /** EVM::execute: run the transaction in a top-level context and commit it to the chain on success. The chain
      ends up holding the reference result, and no Ether is created or destroyed. */
  method Execute(provider: Provider, chain: Chain, sender: Address, recipient: Address, value: Word, input: Word,
      fuel: nat)
    modifies provider
    ensures var w := Worlds.Execute(chain, old(provider.world), sender, recipient, value, input, fuel);
            && (forall a: Address :: provider.world.AccountOf(a) == w.AccountOf(a))
            && (forall a: Address, k: Word :: provider.world.Slot(a, k) == w.Slot(a, k))
    ensures Supply(old(provider.world)) < TWO_256 ==> Supply(provider.world) == Supply(old(provider.world))
  {
    hide Run, Shows, SameViews, MergeStorage;
    ghost var w := provider.world;
    var context := new Context(provider, null, sender, recipient, value, false);
    ShowsItself(w);
    EmptyShows([], w, w);
    assert context.Layers() == [Layer(map[], map[])] + [];
    var ok, ret := context.RunEVMRaw(chain, true, chain.code(recipient), input, fuel, w);
    ghost var out := Run(chain, w, context.FrameOf(true), chain.code(recipient), input, fuel);
    if ok {
      assert context.Layers() == [context.Top()];
      CommitToChain(context.Top(), w, out.world);
      context.WriteChangesToChain(provider);
    }
    ghost var w' := Worlds.Execute(chain, w, sender, recipient, value, input, fuel);
    SupplyPointwise(provider.world, w');
    if Supply(w) < TWO_256 {
      ExecuteConserves(chain, w, sender, recipient, value, input, fuel);
    }
  }

  lemma ShowsItself(w: World)
    ensures Shows([], w, w)
  {
  }

  lemma SupplyPointwise(w: World, w': World)
    requires forall a: Address :: w.AccountOf(a) == w'.AccountOf(a)
    ensures Supply(w) == Supply(w')
  {
    forall a: Address
      ensures (if a in w.accounts then w.accounts[a].balance else 0)
           == (if a in w'.accounts then w'.accounts[a].balance else 0)
    {
      assert w.AccountOf(a).balance == w'.AccountOf(a).balance;
    }
    SumPointwise(w.accounts, w'.accounts);
  }
}
