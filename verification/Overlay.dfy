/** Call frames over nested state overlays: each frame caches what it reads from its parent and buffers what it
    writes; on success its entries are written into the parent, on failure they are dropped. */
module Overlay {
  import opened Worlds

  /** The cached and written entries of one frame. */
  datatype Layer = Layer(accounts: map<Address, Account>, storage: map<Address, map<Word, Word>>)
  {
    function PutAccount(a: Address, account: Account): Layer {
      this.(accounts := accounts[a := account])
    }

    function PutSlot(a: Address, k: Word, v: Word): Layer {
      this.(storage := storage[a := (if a in storage then storage[a] else map[])[k := v]])
    }

    predicate HasSlot(a: Address, k: Word) {
      a in storage && k in storage[a]
    }
  }

  // ---------- what a stack of layers shows ----------

  /** The account a frame sees: its own entry, else its parent's view, else the chain's. */
  function LookupAccount(ls: seq<Layer>, base: World, a: Address): Account {
    if ls == [] then base.AccountOf(a)
    else if a in ls[0].accounts then ls[0].accounts[a]
    else LookupAccount(ls[1..], base, a)
  }

  function LookupSlot(ls: seq<Layer>, base: World, a: Address, k: Word): Word {
    if ls == [] then base.Slot(a, k)
    else if ls[0].HasSlot(a, k) then ls[0].storage[a][k]
    else LookupSlot(ls[1..], base, a, k)
  }

  ghost predicate Shows(ls: seq<Layer>, base: World, w: World) {
    && (forall a: Address :: LookupAccount(ls, base, a) == w.AccountOf(a))
    && (forall a: Address, k: Word :: LookupSlot(ls, base, a, k) == w.Slot(a, k))
  }

  ghost predicate SameView(ls: seq<Layer>, ls': seq<Layer>, base: World) {
    && (forall a: Address :: LookupAccount(ls, base, a) == LookupAccount(ls', base, a))
    && (forall a: Address, k: Word :: LookupSlot(ls, base, a, k) == LookupSlot(ls', base, a, k))
  }

  /** No frame of the stack sees a difference. */
  ghost predicate SameViews(ls: seq<Layer>, ls': seq<Layer>, base: World) {
    && |ls| == |ls'|
    && SameView(ls, ls', base)
    && (ls != [] ==> SameViews(ls[1..], ls'[1..], base))
  }

  lemma {:induction false} SameViewsRefl(ls: seq<Layer>, base: World)
    ensures SameViews(ls, ls, base)
  {
    if ls != [] {
      SameViewsRefl(ls[1..], base);
    }
  }

  lemma {:induction false} SameViewsTrans(ls: seq<Layer>, ls': seq<Layer>, ls'': seq<Layer>, base: World)
    requires SameViews(ls, ls', base) && SameViews(ls', ls'', base)
    ensures SameViews(ls, ls'', base)
  {
    if ls != [] {
      SameViewsTrans(ls[1..], ls'[1..], ls''[1..], base);
    }
  }

  lemma ShowsAccount(ls: seq<Layer>, base: World, w: World, a: Address)
    requires Shows(ls, base, w)
    ensures LookupAccount(ls, base, a) == w.AccountOf(a)
  {
  }

  lemma ShowsSlot(ls: seq<Layer>, base: World, w: World, a: Address, k: Word)
    requires Shows(ls, base, w)
    ensures LookupSlot(ls, base, a, k) == w.Slot(a, k)
  {
  }

  lemma ShowsView(ls: seq<Layer>, ls': seq<Layer>, base: World, w: World)
    requires SameView(ls, ls', base) && Shows(ls, base, w)
    ensures Shows(ls', base, w)
  {
    forall a: Address ensures LookupAccount(ls', base, a) == w.AccountOf(a) {
      assert LookupAccount(ls, base, a) == LookupAccount(ls', base, a);
    }
    forall a: Address, k: Word ensures LookupSlot(ls', base, a, k) == w.Slot(a, k) {
      assert LookupSlot(ls, base, a, k) == LookupSlot(ls', base, a, k);
    }
  }

  lemma ShowsSame(ls: seq<Layer>, ls': seq<Layer>, base: World, w: World)
    requires SameViews(ls, ls', base) && Shows(ls, base, w)
    ensures Shows(ls', base, w)
  {
    ShowsView(ls, ls', base, w);
  }

  /** After a read: the value read is the one shown, and every view is kept. */
  lemma KeepShowing(below: seq<Layer>, before: seq<Layer>, after: seq<Layer>, base: World, cur: World,
      a: Address, k: Word)
    requires before != [] && SameViews(below, before[1..], base)
    requires SameViews(before, after, base) && Shows(before, base, cur)
    ensures Shows(after, base, cur) && after != [] && SameViews(below, after[1..], base)
    ensures LookupAccount(before, base, a) == cur.AccountOf(a)
    ensures LookupSlot(before, base, a, k) == cur.Slot(a, k)
  {
    ShowsSame(before, after, base, cur);
    SameViewsTrans(below, before[1..], after[1..], base);
  }

  lemma SameBelow(ls: seq<Layer>, ls': seq<Layer>, base: World)
    requires SameViews(ls, ls', base) && ls != []
    ensures SameViews(ls[1..], ls'[1..], base)
  {
  }

  // ---------- the effect of the frame operations on what is shown ----------

  lemma AccountAbove(l: Layer, rest: seq<Layer>, base: World, a: Address)
    ensures LookupAccount([l] + rest, base, a) ==
      if a in l.accounts then l.accounts[a] else LookupAccount(rest, base, a)
  {
    assert ([l] + rest)[1..] == rest;
  }

  lemma SlotAbove(l: Layer, rest: seq<Layer>, base: World, a: Address, k: Word)
    ensures LookupSlot([l] + rest, base, a, k) ==
      if l.HasSlot(a, k) then l.storage[a][k] else LookupSlot(rest, base, a, k)
  {
    assert ([l] + rest)[1..] == rest;
  }

  /** Replacing the top layer by one with the same lookups, over an equivalent rest. */
  lemma SameTop(l: Layer, l': Layer, rest: seq<Layer>, rest': seq<Layer>, base: World)
    requires SameViews(rest, rest', base)
    requires forall a: Address :: LookupAccount([l] + rest, base, a) == LookupAccount([l'] + rest', base, a)
    requires forall a: Address, k: Word :: LookupSlot([l] + rest, base, a, k) == LookupSlot([l'] + rest', base, a, k)
    ensures SameViews([l] + rest, [l'] + rest', base)
  {
    assert ([l] + rest)[1..] == rest && ([l'] + rest')[1..] == rest';
  }

  /** Caching what the parent shows changes no view. */
  lemma CacheAccount(l: Layer, rest: seq<Layer>, rest': seq<Layer>, base: World, a: Address)
    requires SameViews(rest, rest', base) && a !in l.accounts
    ensures SameViews([l] + rest, [l.PutAccount(a, LookupAccount(rest, base, a))] + rest', base)
  {
    var l' := l.PutAccount(a, LookupAccount(rest, base, a));
    forall b: Address ensures LookupAccount([l] + rest, base, b) == LookupAccount([l'] + rest', base, b) {
      AccountAbove(l, rest, base, b);
      AccountAbove(l', rest', base, b);
    }
    forall b: Address, k: Word ensures LookupSlot([l] + rest, base, b, k) == LookupSlot([l'] + rest', base, b, k) {
      SlotAbove(l, rest, base, b, k);
      SlotAbove(l', rest', base, b, k);
    }
    SameTop(l, l', rest, rest', base);
  }

  lemma CacheSlot(l: Layer, rest: seq<Layer>, rest': seq<Layer>, base: World, a: Address, k: Word)
    requires SameViews(rest, rest', base) && !l.HasSlot(a, k)
    ensures SameViews([l] + rest, [l.PutSlot(a, k, LookupSlot(rest, base, a, k))] + rest', base)
  {
    var l' := l.PutSlot(a, k, LookupSlot(rest, base, a, k));
    forall b: Address ensures LookupAccount([l] + rest, base, b) == LookupAccount([l'] + rest', base, b) {
      AccountAbove(l, rest, base, b);
      AccountAbove(l', rest', base, b);
    }
    forall b: Address, j: Word ensures LookupSlot([l] + rest, base, b, j) == LookupSlot([l'] + rest', base, b, j) {
      SlotAbove(l, rest, base, b, j);
      SlotAbove(l', rest', base, b, j);
    }
    SameTop(l, l', rest, rest', base);
  }

  /** Writing an account in the top layer writes it in the world shown. */
  lemma WriteAccount(l: Layer, rest: seq<Layer>, base: World, w: World, a: Address, account: Account)
    requires Shows([l] + rest, base, w)
    ensures Shows([l.PutAccount(a, account)] + rest, base, w.PutAccount(a, account))
  {
    var l', w' := l.PutAccount(a, account), w.PutAccount(a, account);
    forall b: Address ensures LookupAccount([l'] + rest, base, b) == w'.AccountOf(b) {
      AccountAbove(l, rest, base, b);
      AccountAbove(l', rest, base, b);
      assert LookupAccount([l] + rest, base, b) == w.AccountOf(b);
    }
    forall b: Address, k: Word ensures LookupSlot([l'] + rest, base, b, k) == w'.Slot(b, k) {
      SlotAbove(l, rest, base, b, k);
      SlotAbove(l', rest, base, b, k);
      assert LookupSlot([l] + rest, base, b, k) == w.Slot(b, k);
    }
  }

  lemma WriteSlot(l: Layer, rest: seq<Layer>, base: World, w: World, a: Address, k: Word, v: Word)
    requires Shows([l] + rest, base, w)
    ensures Shows([l.PutSlot(a, k, v)] + rest, base, w.PutSlot(a, k, v))
  {
    var l', w' := l.PutSlot(a, k, v), w.PutSlot(a, k, v);
    forall b: Address ensures LookupAccount([l'] + rest, base, b) == w'.AccountOf(b) {
      AccountAbove(l, rest, base, b);
      AccountAbove(l', rest, base, b);
      assert LookupAccount([l] + rest, base, b) == w.AccountOf(b);
    }
    forall b: Address, j: Word ensures LookupSlot([l'] + rest, base, b, j) == w'.Slot(b, j) {
      SlotAbove(l, rest, base, b, j);
      SlotAbove(l', rest, base, b, j);
      assert LookupSlot([l] + rest, base, b, j) == w.Slot(b, j);
    }
  }

  function SlotsOf(m: map<Address, map<Word, Word>>, a: Address): map<Word, Word> {
    if a in m then m[a] else map[]
  }

  /** Entry by entry union of two storage overlays; the second wins. */
  function MergeStorage(d: map<Address, map<Word, Word>>, s: map<Address, map<Word, Word>>)
      : map<Address, map<Word, Word>>
  {
    map a | a in d.Keys + s.Keys :: SlotsOf(d, a) + SlotsOf(s, a)
  }

  /** Merging one address's entries is an update at that address. */
  lemma MergeOne(d: map<Address, map<Word, Word>>, a: Address, entries: map<Word, Word>)
    ensures MergeStorage(d, map[a := entries]) == d[a := SlotsOf(d, a) + entries]
  {
    forall b | b in d && b != a ensures MergeStorage(d, map[a := entries])[b] == d[b] {
      assert d[b] + map[] == d[b];
    }
  }

  /** Merging one more address of s. */
  lemma MergeStep(d: map<Address, map<Word, Word>>, s: map<Address, map<Word, Word>>, todo: set<Address>, a: Address)
    requires a in todo && a in s
    ensures MergeStorage(MergeStorage(d, s - todo), map[a := s[a]]) == MergeStorage(d, s - (todo - {a}))
  {
    hide MergeStorage, SlotsOf;
    var m, t := MergeStorage(d, s - todo), s - (todo - {a});
    MergeOne(m, a, s[a]);
    var merged := m[a := SlotsOf(m, a) + s[a]];
    MergeStepKeys(d, s, todo, a);
    forall b | b in merged ensures merged[b] == MergeStorage(d, t)[b] {
      MergeStepAt(d, s, todo, a, b);
    }
  }

  lemma MergeStepAt(d: map<Address, map<Word, Word>>, s: map<Address, map<Word, Word>>, todo: set<Address>, a: Address,
      b: Address)
    requires a in todo && a in s && b in MergeStorage(d, s - (todo - {a}))
    ensures b == a ==> MergeStorage(d, s - (todo - {a}))[a] == SlotsOf(MergeStorage(d, s - todo), a) + s[a]
    ensures b != a ==>
      b in MergeStorage(d, s - todo) && MergeStorage(d, s - todo)[b] == MergeStorage(d, s - (todo - {a}))[b]
  {
    if b == a {
      assert SlotsOf(d, a) + map[] == SlotsOf(d, a);
    } else {
      assert SlotsOf(s - todo, b) == SlotsOf(s - (todo - {a}), b);
    }
  }

  lemma MergeStepKeys(d: map<Address, map<Word, Word>>, s: map<Address, map<Word, Word>>, todo: set<Address>,
      a: Address)
    requires a in todo && a in s
    ensures MergeStorage(d, s - todo).Keys + {a} == MergeStorage(d, s - (todo - {a})).Keys
  {
  }

  lemma MergeEmpty(d: map<Address, map<Word, Word>>)
    ensures MergeStorage(d, map[]) == d
  {
    forall b | b in d ensures MergeStorage(d, map[])[b] == d[b] {
      assert d[b] + map[] == d[b];
    }
  }

  function Merge(parent: Layer, child: Layer): Layer {
    Layer(parent.accounts + child.accounts, MergeStorage(parent.storage, child.storage))
  }

  /** Committing a child makes the parent's view equal the child's. */
  lemma CommitShows(child: Layer, parent: Layer, rest: seq<Layer>, base: World)
    ensures SameView([child] + ([parent] + rest), [Merge(parent, child)] + rest, base)
  {
    var m := Merge(parent, child);
    forall a: Address
      ensures LookupAccount([child] + ([parent] + rest), base, a) == LookupAccount([m] + rest, base, a)
    {
      AccountAbove(child, [parent] + rest, base, a);
      AccountAbove(parent, rest, base, a);
      AccountAbove(m, rest, base, a);
    }
    forall a: Address, k: Word
      ensures LookupSlot([child] + ([parent] + rest), base, a, k) == LookupSlot([m] + rest, base, a, k)
    {
      SlotAbove(child, [parent] + rest, base, a, k);
      SlotAbove(parent, rest, base, a, k);
      SlotAbove(m, rest, base, a, k);
    }
  }

  /** A fresh empty layer shows what its parent shows. */
  lemma EmptyShows(rest: seq<Layer>, base: World, w: World)
    requires Shows(rest, base, w)
    ensures Shows([Layer(map[], map[])] + rest, base, w)
  {
    var l := Layer(map[], map[]);
    forall a: Address ensures LookupAccount([l] + rest, base, a) == w.AccountOf(a) {
      AccountAbove(l, rest, base, a);
      assert LookupAccount(rest, base, a) == w.AccountOf(a);
    }
    forall a: Address, k: Word ensures LookupSlot([l] + rest, base, a, k) == w.Slot(a, k) {
      SlotAbove(l, rest, base, a, k);
      assert LookupSlot(rest, base, a, k) == w.Slot(a, k);
    }
  }

  /** Committing the outermost frame to the chain makes the chain hold what the frame showed. */
  lemma CommitToChain(l: Layer, base: World, w: World)
    requires Shows([l], base, w)
    ensures var committed := World(base.accounts + l.accounts, MergeStorage(base.storage, l.storage));
            && (forall a: Address :: committed.AccountOf(a) == w.AccountOf(a))
            && (forall a: Address, k: Word :: committed.Slot(a, k) == w.Slot(a, k))
  {
    var committed := World(base.accounts + l.accounts, MergeStorage(base.storage, l.storage));
    forall a: Address ensures committed.AccountOf(a) == w.AccountOf(a) {
      AccountAbove(l, [], base, a);
      ShowsAccount([l], base, w, a);
      assert [l] + [] == [l];
    }
    forall a: Address, k: Word ensures committed.Slot(a, k) == w.Slot(a, k) {
      SlotAbove(l, [], base, a, k);
      ShowsSlot([l], base, w, a, k);
      assert [l] + [] == [l];
    }
  }
}
