/** Transient storage of nested frames: tload falls back on the parent's own tload, so it looks up the parent's
    address rather than this frame's, and keeps the answer under its own. */
module Transient {
  import opened Worlds
  import opened Overlay

  /** One frame's address and its transient entries, by address. */
  datatype Sheet = Sheet(address: Address, slots: map<Address, map<Word, Word>>)
  {
    predicate Has(a: Address, k: Word) {
      a in slots && k in slots[a]
    }
  }

  /** What tload gives in the innermost frame. */
  function Loaded(ls: seq<Sheet>, k: Word): Word {
    if ls == [] then 0
    else if ls[0].Has(ls[0].address, k) then ls[0].slots[ls[0].address][k]
    else Loaded(ls[1..], k)
  }

  /** The nearest frame's entry for one address, be it stored or kept from an earlier tload. What was stored is in the
      reference below. */
  function Held(ls: seq<Sheet>, a: Address, k: Word): Word {
    if ls == [] then 0
    else if ls[0].Has(a, k) then ls[0].slots[a][k]
    else Held(ls[1..], a, k)
  }

  predicate Chain(addresses: seq<Address>, ls: seq<Sheet>) {
    |ls| == |addresses| && forall i :: 0 <= i < |ls| ==> ls[i].address == addresses[i]
  }

  lemma {:induction false} OneAddress(addresses: seq<Address>, ls: seq<Sheet>, a: Address, k: Word)
    requires Chain(addresses, ls) && forall i :: 0 <= i < |addresses| ==> addresses[i] == a
    ensures Loaded(ls, k) == Held(ls, a, k)
  {
    if ls != [] {
      OneAddress(addresses[1..], ls[1..], a, k);
    }
  }

  /** Frames that hold nothing, except frame i, which holds 1 at slot 0 of its own address. */
  function Planted(addresses: seq<Address>, i: nat): (ls: seq<Sheet>)
    requires i < |addresses|
    ensures Chain(addresses, ls)
  {
    seq(|addresses|, j requires 0 <= j < |addresses| =>
      Sheet(addresses[j], if j == i then map[addresses[j] := map[0 := 1]] else map[]))
  }

  lemma {:induction false} PlantedLoads(addresses: seq<Address>, i: nat, a: Address)
    requires i < |addresses| && addresses[i] != a
    ensures Loaded(Planted(addresses, i), 0) == 1 && Held(Planted(addresses, i), a, 0) == 0
    decreases i
  {
    var ls := Planted(addresses, i);
    if i > 0 {
      assert ls[1..] == Planted(addresses[1..], i - 1);
      PlantedLoads(addresses[1..], i - 1, a);
    } else {
      NothingHeld(ls[1..], a);
    }
  }

  lemma {:induction false} NothingHeld(ls: seq<Sheet>, a: Address)
    requires forall i :: 0 <= i < |ls| ==> ls[i].slots == map[]
    ensures Held(ls, a, 0) == 0
  {
    if ls != [] {
      NothingHeld(ls[1..], a);
    }
  }

  ghost predicate LoadsRight(addresses: seq<Address>)
    requires addresses != []
  {
    forall ls, k :: Chain(addresses, ls) ==> Loaded(ls, k) == Held(ls, addresses[0], k)
  }

  /** tload finds the nearest entry under the frame's own address, for all contents, exactly along chains of frames
      with one address. */
  lemma LoadsRightExactly(addresses: seq<Address>)
    requires addresses != []
    ensures LoadsRight(addresses) <==> forall i :: 0 <= i < |addresses| ==> addresses[i] == addresses[0]
  {
    if i :| 0 <= i < |addresses| && addresses[i] != addresses[0] {
      PlantedLoads(addresses, i, addresses[0]);
    } else {
      forall ls, k | Chain(addresses, ls)
        ensures Loaded(ls, k) == Held(ls, addresses[0], k)
      {
        OneAddress(addresses, ls, addresses[0], k);
      }
    }
  }

  /** No frame of the stack can tell the difference, as long as no frame commits. */
  ghost predicate SameLoads(ls: seq<Sheet>, ls': seq<Sheet>) {
    && |ls| == |ls'|
    && (forall k: Word :: Loaded(ls, k) == Loaded(ls', k))
    && (ls != [] ==> SameLoads(ls[1..], ls'[1..]))
  }

  lemma {:induction false} SameLoadsRefl(ls: seq<Sheet>)
    ensures SameLoads(ls, ls)
  {
    if ls != [] {
      SameLoadsRefl(ls[1..]);
    }
  }

  lemma {:induction false} SameLoadsTrans(ls: seq<Sheet>, ls': seq<Sheet>, ls'': seq<Sheet>)
    requires SameLoads(ls, ls') && SameLoads(ls', ls'')
    ensures SameLoads(ls, ls'')
  {
    if ls != [] {
      SameLoadsTrans(ls[1..], ls'[1..], ls''[1..]);
    }
  }

  lemma TailSame(ls: seq<Sheet>, ls': seq<Sheet>)
    requires SameLoads(ls, ls') && ls != []
    ensures SameLoads(ls[1..], ls'[1..])
  {
  }

  function PutSlot(m: map<Address, map<Word, Word>>, a: Address, k: Word, v: Word): map<Address, map<Word, Word>> {
    m[a := SlotsOf(m, a)[k := v]]
  }

  lemma PutLoads(a: Address, m: map<Address, map<Word, Word>>, rest: seq<Sheet>, k: Word, v: Word)
    ensures forall j: Word ::
      Loaded([Sheet(a, PutSlot(m, a, k, v))] + rest, j) == if j == k then v else Loaded([Sheet(a, m)] + rest, j)
  {
    assert ([Sheet(a, PutSlot(m, a, k, v))] + rest)[1..] == rest == ([Sheet(a, m)] + rest)[1..];
  }

  /** The entries a tload leaves behind: every frame up to the one that has the slot, or the last but one, keeps the
      answer under its own address. */
  function Cached(ls: seq<Sheet>, k: Word): (ls': seq<Sheet>)
    ensures |ls'| == |ls|
  {
    if |ls| <= 1 || ls[0].Has(ls[0].address, k) then ls
    else [Sheet(ls[0].address, PutSlot(ls[0].slots, ls[0].address, k, Loaded(ls[1..], k)))] + Cached(ls[1..], k)
  }

  /** Keeping what the parent's tload gave changes no load until a commit. */
  lemma CacheLoad(a: Address, m: map<Address, map<Word, Word>>, rest: seq<Sheet>, rest': seq<Sheet>, k: Word)
    requires SameLoads(rest, rest') && !Sheet(a, m).Has(a, k)
    ensures SameLoads([Sheet(a, m)] + rest, [Sheet(a, PutSlot(m, a, k, Loaded(rest, k)))] + rest')
  {
    var ls, ls' := [Sheet(a, m)] + rest, [Sheet(a, PutSlot(m, a, k, Loaded(rest, k)))] + rest';
    assert ls[1..] == rest && ls'[1..] == rest';
  }

  lemma {:induction false} CachedSame(ls: seq<Sheet>, k: Word)
    ensures SameLoads(ls, Cached(ls, k))
  {
    if |ls| <= 1 || ls[0].Has(ls[0].address, k) {
      SameLoadsRefl(ls);
    } else {
      CachedSame(ls[1..], k);
      CacheLoad(ls[0].address, ls[0].slots, ls[1..], Cached(ls[1..], k), k);
      assert [Sheet(ls[0].address, ls[0].slots)] + ls[1..] == ls;
    }
  }

  /** After a commit the parent loads what the child recorded for the parent's address, else what it did before. */
  lemma CommitLoads(a: Address, m: map<Address, map<Word, Word>>, c: map<Address, map<Word, Word>>,
      rest: seq<Sheet>, k: Word)
    ensures Loaded([Sheet(a, MergeStorage(m, c))] + rest, k)
      == if a in c && k in c[a] then c[a][k] else Loaded([Sheet(a, m)] + rest, k)
  {
    assert ([Sheet(a, MergeStorage(m, c))] + rest)[1..] == rest == ([Sheet(a, m)] + rest)[1..];
  }

  /** A committed child of the same address leaves its own view to the parent. */
  lemma CommitShowsChild(a: Address, m: map<Address, map<Word, Word>>, c: map<Address, map<Word, Word>>,
      rest: seq<Sheet>, k: Word)
    ensures Loaded([Sheet(a, MergeStorage(m, c))] + rest, k) == Loaded([Sheet(a, c)] + ([Sheet(a, m)] + rest), k)
  {
    CommitLoads(a, m, c, rest, k);
    assert ([Sheet(a, c)] + ([Sheet(a, m)] + rest))[1..] == [Sheet(a, m)] + rest;
  }

  // ---------- runs of the code and of the reference ----------

  /** What a frame did: loads with the answers they got, stores, and calls with the callee's own run. */
  datatype Act =
    | Loads(k: Word, got: Word)
    | Stores(k: Word, v: Word)
    | Calls(kind: Kind, target: Address, callee: Tree)
  datatype Tree = Tree(address: Address, acts: seq<Act>, ok: bool)

  /** The state after a run, whether no store was refused, and the answers of all its loads, nested ones included. */
  datatype Done<S> = Done(state: S, ok: bool, loads: seq<Word>)

  function Last(acts: seq<Act>): Act
    requires acts != []
  {
    acts[|acts| - 1]
  }

  function Init(acts: seq<Act>): seq<Act>
    requires acts != []
  {
    acts[..|acts| - 1]
  }

  function PutTop(ls: seq<Sheet>, k: Word, v: Word): seq<Sheet>
    requires ls != []
  {
    [Sheet(ls[0].address, PutSlot(ls[0].slots, ls[0].address, k, v))] + ls[1..]
  }

  /** The innermost frame's entries go to the frame around it. */
  function Commit(ls: seq<Sheet>): seq<Sheet>
    requires |ls| >= 2
  {
    [Sheet(ls[1].address, MergeStorage(ls[1].slots, ls[0].slots))] + ls[2..]
  }

  /** A frame of the code, in a sheet of its own above the others. */
  function CodeTree(t: Tree, isStatic: bool, below: seq<Sheet>): (d: Done<seq<Sheet>>)
    ensures |d.state| == |below| + 1
    decreases t
  {
    var d := CodeActs(t.acts, isStatic, [Sheet(t.address, map[])] + below);
    Done(d.state, d.ok && t.ok, d.loads)
  }

  function CodeActs(acts: seq<Act>, isStatic: bool, ls: seq<Sheet>): (d: Done<seq<Sheet>>)
    requires ls != []
    ensures |d.state| == |ls|
    decreases acts
  {
    if acts == [] then Done(ls, true, [])
    else
      var d := CodeActs(Init(acts), isStatic, ls);
      if !d.ok then d
      else
        var last := CodeAct(Last(acts), isStatic, d.state);
        Done(last.state, last.ok, d.loads + last.loads)
  }

  function CodeAct(act: Act, isStatic: bool, ls: seq<Sheet>): (d: Done<seq<Sheet>>)
    requires ls != []
    ensures |d.state| == |ls|
    decreases act
  {
    match act
    case Loads(k, _) => Done(Cached(ls, k), true, [Loaded(ls, k)])
    case Stores(k, v) => if isStatic then Done(ls, false, []) else Done(PutTop(ls, k, v), true, [])
    case Calls(kind, _, callee) =>
      var d := CodeTree(callee, isStatic || kind.Static?, ls);
      Done(if d.ok && !isStatic && !kind.Static? then Commit(d.state) else d.state[1..], true, d.loads)
  }

  /** Until a commit reaches them, the frames around a run load what they did before it; after a static run so does the
      frame itself. */
  lemma {:induction false} LoadsKept(acts: seq<Act>, isStatic: bool, ls: seq<Sheet>)
    requires ls != []
    ensures var d := CodeActs(acts, isStatic, ls);
      SameLoads(ls[1..], d.state[1..]) && (isStatic ==> SameLoads(ls, d.state))
    decreases acts, 0
  {
    hide SameLoads, CodeAct;
    if acts == [] {
      SameLoadsRefl(ls[1..]);
      SameLoadsRefl(ls);
    } else {
      LoadsKept(Init(acts), isStatic, ls);
      var d, last := CodeActs(Init(acts), isStatic, ls), Last(acts);
      if d.ok {
        assert acts decreases to last;
        ActKeeps(last, isStatic, d.state);
        var after := CodeAct(last, isStatic, d.state).state;
        SameLoadsTrans(ls[1..], d.state[1..], after[1..]);
        if isStatic {
          SameLoadsTrans(ls, d.state, after);
        }
      }
    }
  }

  lemma {:induction false} ActKeeps(act: Act, isStatic: bool, ls: seq<Sheet>)
    requires ls != []
    ensures var d := CodeAct(act, isStatic, ls);
      SameLoads(ls[1..], d.state[1..]) && (isStatic ==> SameLoads(ls, d.state))
    decreases act, 0
  {
    hide SameLoads, CodeActs, Cached;
    match act
    case Loads(k, _) =>
      CachedSame(ls, k);
      TailSame(ls, Cached(ls, k));
    case Stores(k, v) =>
      SameLoadsRefl(ls[1..]);
      SameLoadsRefl(ls);
    case Calls(kind, _, callee) =>
      var below := [Sheet(callee.address, map[])] + ls;
      assert below[1..] == ls;
      LoadsKept(callee.acts, isStatic || kind.Static?, below);
      TailSame(ls, CodeActs(callee.acts, isStatic || kind.Static?, below).state[1..]);
  }

  type Cells = map<Address, map<Word, Word>>

  function Slot(st: Cells, a: Address, k: Word): Word {
    if a in st && k in st[a] then st[a][k] else 0
  }

  /** EIP-1153: transient storage belongs to an address. A call works on a copy, which is thrown away if it fails;
      a frame fails if it stores while static. */
  function RefTree(t: Tree, isStatic: bool, st: Cells): Done<Cells>
    decreases t
  {
    var d := RefActs(t.acts, t.address, isStatic, st);
    Done(d.state, d.ok && t.ok, d.loads)
  }

  function RefActs(acts: seq<Act>, address: Address, isStatic: bool, st: Cells): Done<Cells>
    decreases acts
  {
    if acts == [] then Done(st, true, [])
    else
      var d := RefActs(Init(acts), address, isStatic, st);
      if !d.ok then d
      else
        var last := RefAct(Last(acts), address, isStatic, d.state);
        Done(last.state, last.ok, d.loads + last.loads)
  }

  function RefAct(act: Act, address: Address, isStatic: bool, st: Cells): Done<Cells>
    decreases act
  {
    match act
    case Loads(k, _) => Done(st, true, [Slot(st, address, k)])
    case Stores(k, v) => if isStatic then Done(st, false, []) else Done(PutSlot(st, address, k, v), true, [])
    case Calls(kind, _, callee) =>
      var d := RefTree(callee, isStatic || kind.Static?, st);
      Done(if d.ok then d.state else st, true, d.loads)
  }

  lemma {:induction false} RefStatic(t: Tree, st: Cells)
    ensures RefTree(t, true, st).state == st
    decreases t
  {
    RefStaticActs(t.acts, t.address, st);
  }

  lemma {:induction false} RefStaticActs(acts: seq<Act>, address: Address, st: Cells)
    ensures RefActs(acts, address, true, st).state == st
    decreases acts
  {
    if acts != [] {
      RefStaticActs(Init(acts), address, st);
      var last := Last(acts);
      if last.Calls? {
        assert acts decreases to last;
        RefStatic(last.callee, st);
      }
    }
  }

  lemma RefOne(act: Act, a: Address, isStatic: bool, st: Cells)
    ensures RefActs([act], a, isStatic, st) == RefAct(act, a, isStatic, st)
  {
    assert Init([act]) == [];
  }

  lemma SlotPut(st: Cells, a: Address, k: Word, v: Word, b: Address, j: Word)
    ensures Slot(PutSlot(st, a, k, v), b, j) == if b == a && j == k then v else Slot(st, b, j)
  {
  }

  /** Within a reference frame, a load answers the last store to its key, and stores to other keys do not disturb it. */
  lemma RefLoadAfterStore(a: Address, st: Cells, k: Word, v: Word, j: Word, got: Word)
    ensures RefActs([Stores(k, v), Loads(j, got)], a, false, st).loads == [if j == k then v else Slot(st, a, j)]
  {
    RefOne(Stores(k, v), a, false, st);
    RefStep([Stores(k, v)], Loads(j, got), a, false, st);
    assert [Stores(k, v)] + [Loads(j, got)] == [Stores(k, v), Loads(j, got)];
    SlotPut(st, a, k, v, a, j);
  }

  /** What a reference call leaves of a callee's store: the value at the callee's address if the callee succeeds and
      neither the call nor the frame is static, and nothing else whatever happens. */
  lemma RefCallStores(a: Address, isStatic: bool, st: Cells, kind: Kind, b: Address, k: Word, v: Word, ok: bool)
    ensures var d := RefAct(Calls(kind, b, Tree(b, [Stores(k, v)], ok)), a, isStatic, st);
      && d.ok && d.loads == []
      && forall c: Address, j: Word :: Slot(d.state, c, j) ==
           if c == b && j == k && ok && !isStatic && kind != Static then v else Slot(st, c, j)
  {
    var inner, callee := isStatic || kind.Static?, Tree(b, [Stores(k, v)], ok);
    RefOne(Stores(k, v), b, inner, st);
    assert RefTree(callee, inner, st).loads == [];
    forall c: Address, j: Word
      ensures Slot(PutSlot(st, b, k, v), c, j) == if c == b && j == k then v else Slot(st, c, j)
    {
      SlotPut(st, b, k, v, c, j);
    }
  }

  /** What a reference callee loads: what is stored at its own address, in every mode. */
  lemma RefCallLoads(a: Address, isStatic: bool, st: Cells, kind: Kind, b: Address, k: Word, got: Word, ok: bool)
    ensures var d := RefAct(Calls(kind, b, Tree(b, [Loads(k, got)], ok)), a, isStatic, st);
      d.ok && d.loads == [Slot(st, b, k)] && d.state == st
  {
    var inner, callee := isStatic || kind.Static?, Tree(b, [Loads(k, got)], ok);
    RefOne(Loads(k, got), b, inner, st);
    assert RefTree(callee, inner, st).loads == [Slot(st, b, k)];
  }

  /** A transaction's outermost frame starts with nothing stored and is not static. */
  ghost predicate Agrees(t: Tree) {
    var c, r := CodeTree(t, false, []), RefTree(t, false, map[]);
    && c.loads == r.loads && c.ok == r.ok
    && forall a: Address, k: Word :: Held(c.state, a, k) == Slot(r.state, a, k)
  }

  // ---------- one address ----------

  predicate OneAddressTree(t: Tree, a: Address)
    decreases t
  {
    t.address == a && OneAddressActs(t.acts, a)
  }

  predicate OneAddressActs(acts: seq<Act>, a: Address)
    decreases acts
  {
    acts != [] ==>
      && OneAddressActs(Init(acts), a)
      && OneAddressAct(Last(acts), a)
  }

  predicate OneAddressAct(act: Act, a: Address)
    decreases act
  {
    act.Calls? ==> OneAddressTree(act.callee, a)
  }

  /** Frames of one address, holding entries for it only. */
  ghost predicate Plain(ls: seq<Sheet>, a: Address) {
    forall i :: 0 <= i < |ls| ==> ls[i].address == a && ls[i].slots.Keys <= {a}
  }

  /** The code's frames show what the reference holds for the address. */
  ghost predicate Shows(ls: seq<Sheet>, st: Cells, a: Address) {
    && Plain(ls, a) && st.Keys <= {a}
    && forall k: Word :: Loaded(ls, k) == Slot(st, a, k)
  }

  ghost predicate SameDone(c: Done<seq<Sheet>>, r: Done<Cells>, a: Address) {
    c.ok == r.ok && c.loads == r.loads && Shows(c.state, r.state, a)
  }

  lemma {:induction false} AgreeTree(t: Tree, isStatic: bool, below: seq<Sheet>, st: Cells, a: Address)
    requires OneAddressTree(t, a) && Shows(below, st, a)
    ensures SameDone(CodeTree(t, isStatic, below), RefTree(t, isStatic, st), a)
    ensures SameLoads(below, CodeTree(t, isStatic, below).state[1..])
    decreases t
  {
    var ls := [Sheet(t.address, map[])] + below;
    assert ls[1..] == below;
    AgreeActs(t.acts, isStatic, ls, st, a);
  }

  lemma {:induction false} AgreeActs(acts: seq<Act>, isStatic: bool, ls: seq<Sheet>, st: Cells, a: Address)
    requires OneAddressActs(acts, a) && ls != [] && Shows(ls, st, a)
    ensures SameDone(CodeActs(acts, isStatic, ls), RefActs(acts, a, isStatic, st), a)
    ensures SameLoads(ls[1..], CodeActs(acts, isStatic, ls).state[1..])
    decreases acts
  {
    if acts == [] {
      SameLoadsRefl(ls[1..]);
    } else {
      AgreeActs(Init(acts), isStatic, ls, st, a);
      var c, r := CodeActs(Init(acts), isStatic, ls), RefActs(Init(acts), a, isStatic, st);
      if c.ok {
        AgreeAct(Last(acts), isStatic, c.state, r.state, a);
        SameLoadsTrans(ls[1..], c.state[1..], CodeAct(Last(acts), isStatic, c.state).state[1..]);
      }
    }
  }

  lemma {:induction false} AgreeAct(act: Act, isStatic: bool, ls: seq<Sheet>, st: Cells, a: Address)
    requires act.Calls? ==> OneAddressTree(act.callee, a)
    requires ls != [] && Shows(ls, st, a)
    ensures SameDone(CodeAct(act, isStatic, ls), RefAct(act, a, isStatic, st), a)
    ensures SameLoads(ls[1..], CodeAct(act, isStatic, ls).state[1..])
    decreases act
  {
    match act
    case Loads(k, _) =>
      CachedSame(ls, k);
      CachedPlain(ls, k, a);
    case Stores(k, v) =>
      PutLoads(a, ls[0].slots, ls[1..], k, v);
      SameLoadsRefl(ls[1..]);
      assert [Sheet(a, ls[0].slots)] + ls[1..] == ls;
    case Calls(kind, _, callee) =>
      var inner := isStatic || kind.Static?;
      AgreeTree(callee, inner, ls, st, a);
      if inner {
        RefStatic(callee, st);
      }
      var d := CodeTree(callee, inner, ls);
      TailSame(ls, d.state[1..]);
      if d.ok && !inner {
        CommitAgrees(d.state, RefTree(callee, inner, st).state, a);
      } else {
        SamePlain(ls, d.state[1..], st, a);
      }
  }

  lemma CommitAgrees(ls: seq<Sheet>, st: Cells, a: Address)
    requires |ls| >= 2 && Shows(ls, st, a)
    ensures Shows(Commit(ls), st, a)
  {
    var m, c, rest := ls[1].slots, ls[0].slots, ls[2..];
    assert [Sheet(a, c)] + ([Sheet(a, m)] + rest) == ls;
    forall k: Word ensures Loaded(Commit(ls), k) == Slot(st, a, k) {
      CommitShowsChild(a, m, c, rest, k);
    }
  }

  lemma SamePlain(ls: seq<Sheet>, ls': seq<Sheet>, st: Cells, a: Address)
    requires Shows(ls, st, a) && SameLoads(ls, ls') && Plain(ls', a)
    ensures Shows(ls', st, a)
  {
  }

  lemma {:induction false} CachedPlain(ls: seq<Sheet>, k: Word, a: Address)
    requires Plain(ls, a)
    ensures Plain(Cached(ls, k), a)
  {
    if |ls| > 1 && !ls[0].Has(ls[0].address, k) {
      CachedPlain(ls[1..], k, a);
    }
  }

  lemma OneAddressAgrees(t: Tree)
    requires OneAddressTree(t, t.address)
    ensures Agrees(t)
  {
    AgreeTree(t, false, [], map[], t.address);
    var c, r := CodeTree(t, false, []), RefTree(t, false, map[]);
    forall a: Address, k: Word ensures Held(c.state, a, k) == Slot(r.state, a, k) {
      OneSheet(c.state, r.state, t.address, a, k);
    }
  }

  lemma OneSheet(ls: seq<Sheet>, st: Cells, a: Address, b: Address, k: Word)
    requires |ls| == 1 && Shows(ls, st, a)
    ensures Held(ls, b, k) == Slot(st, b, k)
  {
    assert ls[1..] == [];
    assert Loaded(ls, k) == Slot(st, a, k);
    assert ls[0].slots.Keys <= {a};
    if b != a {
      assert b !in ls[0].slots && b !in st;
    }
  }

  // ---------- frames of several addresses ----------

  /** Which frames there are, without their loads and stores. */
  function Shape(t: Tree): Tree
    decreases t
  {
    Tree(t.address, ShapeActs(t.acts), t.ok)
  }

  function ShapeActs(acts: seq<Act>): seq<Act>
    decreases acts
  {
    if acts == [] then []
    else
      ShapeActs(Init(acts)) + ShapeAct(Last(acts))
  }

  function ShapeAct(act: Act): seq<Act>
    decreases act
  {
    if act.Calls? then [Calls(act.kind, act.target, Shape(act.callee))] else []
  }

  lemma {:induction false} OneAddressShape(t: Tree, a: Address)
    ensures OneAddressTree(Shape(t), a) <==> OneAddressTree(t, a)
    decreases t
  {
    OneAddressShapeActs(t.acts, a);
  }

  lemma {:induction false} OneAddressShapeActs(acts: seq<Act>, a: Address)
    ensures OneAddressActs(ShapeActs(acts), a) <==> OneAddressActs(acts, a)
    decreases acts
  {
    if acts != [] {
      OneAddressShapeActs(Init(acts), a);
      var last := Last(acts);
      if last.Calls? {
        assert acts decreases to last;
        OneAddressShape(last.callee, a);
        assert Init(ShapeActs(acts)) == ShapeActs(Init(acts));
      } else {
        assert ShapeActs(acts) == ShapeActs(Init(acts));
      }
    }
  }

  /** The same frames, each doing one thing before its calls: the outermost stores 1 at slot 0, the others load it. */
  function Filled(t: Tree, first: Act): Tree
    decreases t
  {
    Tree(t.address, FilledActs(t.acts, first), t.ok)
  }

  function FilledActs(acts: seq<Act>, first: Act): seq<Act>
    decreases acts
  {
    if acts == [] then [first]
    else
      FilledActs(Init(acts), first) + FilledAct(Last(acts))
  }

  function FilledAct(act: Act): seq<Act>
    decreases act
  {
    if act.Calls? then [Calls(act.kind, act.target, Filled(act.callee, Loads(0, 1)))] else []
  }

  lemma {:induction false} FilledShape(t: Tree, first: Act)
    requires !first.Calls?
    ensures Shape(Filled(t, first)) == Shape(t)
    decreases t
  {
    FilledShapeActs(t.acts, first);
  }

  lemma {:induction false} FilledShapeActs(acts: seq<Act>, first: Act)
    requires !first.Calls?
    ensures ShapeActs(FilledActs(acts, first)) == ShapeActs(acts)
    decreases acts
  {
    if acts == [] {
      assert Init([first]) == [];
    } else {
      FilledShapeActs(Init(acts), first);
      var last := Last(acts);
      if last.Calls? {
        assert acts decreases to last;
        FilledShape(last.callee, Loads(0, 1));
        assert |FilledAct(last)| == 1;
        assert Init(FilledActs(acts, first)) == FilledActs(Init(acts), first);
      } else {
        assert FilledActs(acts, first) == FilledActs(Init(acts), first);
      }
    }
  }

  predicate AllOnes(loads: seq<Word>) {
    forall i :: 0 <= i < |loads| ==> loads[i] == 1
  }

  /** Nothing but 1 is held at slot 0, and the outermost frame holds it. */
  ghost predicate Ones(ls: seq<Sheet>) {
    && ls != []
    && (forall b: Address :: ls[0].Has(b, 0) ==> ls[0].slots[b][0] == 1)
    && if |ls| == 1 then ls[0].Has(ls[0].address, 0) else Ones(ls[1..])
  }

  lemma {:induction false} OnesLoaded(ls: seq<Sheet>)
    requires Ones(ls)
    ensures Loaded(ls, 0) == 1
  {
    if |ls| > 1 {
      OnesLoaded(ls[1..]);
    }
  }

  lemma {:induction false} OnesCached(ls: seq<Sheet>)
    requires Ones(ls)
    ensures Ones(Cached(ls, 0))
  {
    if |ls| > 1 && !ls[0].Has(ls[0].address, 0) {
      OnesLoaded(ls[1..]);
      OnesCached(ls[1..]);
      assert Cached(ls, 0)[1..] == Cached(ls[1..], 0);
    }
  }

  lemma OnesCommit(ls: seq<Sheet>)
    requires |ls| >= 2 && Ones(ls)
    ensures Ones(Commit(ls))
  {
    assert Commit(ls)[1..] == ls[2..] == ls[1..][1..];
    assert Ones(ls[1..]);
  }

  /** In the code, every load of such a run gives 1. */
  lemma {:induction false} FilledCode(t: Tree, isStatic: bool, below: seq<Sheet>)
    requires Ones(below)
    ensures var d := CodeTree(Filled(t, Loads(0, 1)), isStatic, below);
      AllOnes(d.loads) && Ones(d.state)
    decreases t, 1
  {
    var ls := [Sheet(t.address, map[])] + below;
    assert ls[1..] == below;
    OnesLoaded(ls);
    OnesCached(ls);
    FilledCodeActs(t.acts, Loads(0, 1), isStatic, ls);
  }

  lemma {:induction false} FilledCodeActs(acts: seq<Act>, first: Act, isStatic: bool, ls: seq<Sheet>)
    requires ls != []
    requires var d := CodeAct(first, isStatic, ls); d.ok && AllOnes(d.loads) && Ones(d.state)
    ensures var d := CodeActs(FilledActs(acts, first), isStatic, ls); d.ok && AllOnes(d.loads) && Ones(d.state)
    decreases acts, 0
  {
    hide Ones, CodeAct;
    if acts == [] {
      assert Init([first]) == [];
    } else {
      FilledCodeActs(Init(acts), first, isStatic, ls);
      var last := Last(acts);
      if last.Calls? {
        assert acts decreases to last;
        var d := CodeActs(FilledActs(Init(acts), first), isStatic, ls);
        assert |FilledAct(last)| == 1;
        assert Init(FilledActs(acts, first)) == FilledActs(Init(acts), first);
        FilledCodeCall(last, isStatic, d.state);
        AllOnesSplit(d.loads, CodeAct(FilledAct(last)[0], isStatic, d.state).loads);
      } else {
        assert FilledActs(acts, first) == FilledActs(Init(acts), first);
      }
    }
  }

  lemma {:induction false} FilledCodeCall(act: Act, isStatic: bool, ls: seq<Sheet>)
    requires act.Calls? && Ones(ls)
    ensures var d := CodeAct(FilledAct(act)[0], isStatic, ls); d.ok && AllOnes(d.loads) && Ones(d.state)
    decreases act, 0
  {
    var inner := isStatic || act.kind.Static?;
    FilledCode(act.callee, inner, ls);
    var d := CodeTree(Filled(act.callee, Loads(0, 1)), inner, ls);
    OnesCommit(d.state);
  }

  /** In the reference, a load of such a run gives 1 only at the outermost frame's address. */
  lemma {:induction false} FilledRef(t: Tree, isStatic: bool, st: Cells, a: Address)
    requires forall b: Address :: Slot(st, b, 0) == if b == a then 1 else 0
    ensures var d := RefTree(Filled(t, Loads(0, 1)), isStatic, st);
      d.state == st && (AllOnes(d.loads) ==> OneAddressTree(t, a))
    decreases t
  {
    FilledRefActs(t.acts, Loads(0, 1), t.address, isStatic, st, a);
    assert RefTree(Filled(t, Loads(0, 1)), isStatic, st).loads[0] == Slot(st, t.address, 0);
  }

  lemma {:induction false} FilledRefActs(acts: seq<Act>, first: Act, address: Address, isStatic: bool, st: Cells,
      a: Address)
    requires var d := RefAct(first, address, isStatic, st);
      d.ok && forall b: Address :: Slot(d.state, b, 0) == if b == a then 1 else 0
    ensures var d := RefActs(FilledActs(acts, first), address, isStatic, st);
      && d.ok && d.state == RefAct(first, address, isStatic, st).state
      && RefAct(first, address, isStatic, st).loads <= d.loads
      && (AllOnes(d.loads) ==> OneAddressActs(acts, a))
    decreases acts
  {
    var from := RefAct(first, address, isStatic, st);
    if acts == [] {
      assert Init([first]) == [];
    } else {
      FilledRefActs(Init(acts), first, address, isStatic, st, a);
      var last := Last(acts);
      if last.Calls? {
        var d := RefActs(FilledActs(Init(acts), first), address, isStatic, st);
        assert |FilledAct(last)| == 1;
        assert Init(FilledActs(acts, first)) == FilledActs(Init(acts), first);
        assert acts decreases to last;
        FilledRef(last.callee, isStatic || last.kind.Static?, from.state, a);
        var callee := Filled(last.callee, Loads(0, 1));
        AllOnesSplit(d.loads, RefTree(callee, isStatic || last.kind.Static?, from.state).loads);
      } else {
        assert FilledActs(acts, first) == FilledActs(Init(acts), first);
      }
    }
  }

  lemma AllOnesSplit(x: seq<Word>, y: seq<Word>)
    ensures AllOnes(x + y) <==> AllOnes(x) && AllOnes(y)
  {
    assert forall i :: 0 <= i < |x| ==> (x + y)[i] == x[i];
    assert forall i :: 0 <= i < |y| ==> (x + y)[|x| + i] == y[i];
  }

  lemma FilledDisagrees(t: Tree)
    requires Agrees(Filled(t, Stores(0, 1)))
    ensures OneAddressTree(t, t.address)
  {
    var first, a := Stores(0, 1), t.address;
    var ls := [Sheet(a, map[])];
    assert ls + [] == ls && PutTop(ls, 0, 1)[0].Has(a, 0);
    assert Ones(PutTop(ls, 0, 1));
    FilledCodeActs(t.acts, first, false, ls);
    FilledRefActs(t.acts, first, a, false, map[], a);
  }

  /** Whatever its frames load and store, a call tree answers every load, and ends, as the reference does: exactly if
      all its frames have one address. */
  lemma AgreesExactly(t: Tree)
    ensures (forall u :: Shape(u) == Shape(t) ==> Agrees(u)) <==> OneAddressTree(t, t.address)
  {
    if OneAddressTree(t, t.address) {
      OneAddressShape(t, t.address);
      forall u | Shape(u) == Shape(t) ensures Agrees(u) {
        OneAddressShape(u, t.address);
        OneAddressAgrees(u);
      }
    } else {
      FilledShape(t, Stores(0, 1));
      if Agrees(Filled(t, Stores(0, 1))) {
        FilledDisagrees(t);
      }
    }
  }

  // ---------- runs that go wrong ----------

  /** The caller stores 1 at slot 0, and a callee with another address, which never stored anything, loads it. */
  lemma LoadsCallersSlot(caller: Address, callee: Address)
    requires caller != callee
    ensures var t := Tree(caller, [Stores(0, 1), Calls(Ordinary, callee, Tree(callee, [Loads(0, 1)], true))], true);
      CodeTree(t, false, []).loads == [1] && RefTree(t, false, map[]).loads == [0]
  {
    var inner := Tree(callee, [Loads(0, 1)], true);
    var call := Calls(Ordinary, callee, inner);
    var ls, st := PutTop([Sheet(caller, map[])], 0, 1), PutSlot(map[], caller, 0, 1);
    var first := [Stores(0, 1)];
    assert [Sheet(caller, map[])] + [] == [Sheet(caller, map[])];
    OneAct(Stores(0, 1), caller, false, [Sheet(caller, map[])], map[]);
    OneAct(Loads(0, 1), callee, false, [Sheet(callee, map[])] + ls, st);
    assert ([Sheet(callee, map[])] + ls)[1..] == ls;
    CodeStep(first, call, false, [Sheet(caller, map[])]);
    RefStep(first, call, caller, false, map[]);
    assert first + [call] == [Stores(0, 1), call];
  }

  /** The stack when the innermost frame is about to load. */
  function Travelling(a: Address, b: Address): seq<Sheet> {
    [Sheet(a, map[]), Sheet(b, PutSlot(map[], b, 0, 7)), Sheet(a, map[])]
  }

  /** Before the load and after it no frame can tell the two stacks apart; after the same two commits the outermost
      loads 0 from the one and 7 from the other. */
  lemma CommitsDiffer(a: Address, b: Address)
    requires a != b
    ensures var ls := Travelling(a, b);
      && SameLoads(ls, Cached(ls, 0))
      && Loaded(Commit(Commit(ls)), 0) == 0 && Loaded(Commit(Commit(Cached(ls, 0))), 0) == 7
  {
    var ls := Travelling(a, b);
    CachedSame(ls, 0);
  }

  function CallsBack(a: Address, b: Address): Tree {
    Tree(b, [Stores(0, 7), Calls(Ordinary, a, Tree(a, [Loads(0, 7)], true))], true)
  }

  /** One address in the chain is not enough: the caller, at a, calls b, which stores 7 at slot 0 and calls back into a,
      which loads the slot. The 7 it gets is kept as a's own, and the commits carry it to the caller, where nothing
      was ever stored. */
  lemma AnswersTravel(a: Address, b: Address)
    requires a != b
    ensures var t := Tree(a, [Calls(Ordinary, b, CallsBack(a, b)), Loads(0, 7)], true);
      CodeTree(t, false, []).loads == [7, 7] && RefTree(t, false, map[]).loads == [0, 0]
  {
    hide CallsBack, CodeTree, RefTree, Cached, CodeActs, RefActs, Loaded, SameLoads, Commit, Travelling;
    var load, call := Loads(0, 7), Calls(Ordinary, b, CallsBack(a, b));
    var outer := [Sheet(a, map[])];
    CallsBackRun(a, b);
    CommitsDiffer(a, b);
    OneAct(call, a, false, outer, map[]);
    CodeStep([call], load, false, outer);
    RefStep([call], load, a, false, map[]);
    assert [call] + [load] == [call, load] && outer + [] == outer;
    TreeOf(Tree(a, [call, load], true), false, [], map[]);
  }

  lemma CallsBackRun(a: Address, b: Address)
    requires a != b
    ensures CodeTree(CallsBack(a, b), false, [Sheet(a, map[])]) == Done(Commit(Cached(Travelling(a, b), 0)), true, [7])
    ensures RefTree(CallsBack(a, b), false, map[]) == Done(PutSlot(map[], b, 0, 7), true, [0])
  {
    hide CodeTree, RefTree, Cached;
    var load := Loads(0, 7);
    var inner := Tree(a, [load], true);
    var call := Calls(Ordinary, a, inner);
    var ls, st := Travelling(a, b), PutSlot(map[], b, 0, 7);
    OneAct(load, a, false, ls, st);
    assert [Sheet(a, map[])] + ls[1..] == ls;
    TreeOf(inner, false, ls[1..], st);
    var below := [Sheet(b, map[])] + [Sheet(a, map[])];
    OneAct(Stores(0, 7), b, false, below, map[]);
    assert PutTop(below, 0, 7) == ls[1..];
    CodeStep([Stores(0, 7)], call, false, below);
    RefStep([Stores(0, 7)], call, b, false, map[]);
    assert [Stores(0, 7)] + [call] == [Stores(0, 7), call];
    TreeOf(CallsBack(a, b), false, [Sheet(a, map[])], map[]);
    assert Loaded(ls, 0) == 7 by {
      assert ls[1..][0] == Sheet(b, PutSlot(map[], b, 0, 7));
    }
  }

  lemma TreeOf(t: Tree, isStatic: bool, below: seq<Sheet>, st: Cells)
    ensures var d := CodeActs(t.acts, isStatic, [Sheet(t.address, map[])] + below);
      CodeTree(t, isStatic, below) == Done(d.state, d.ok && t.ok, d.loads)
    ensures var d := RefActs(t.acts, t.address, isStatic, st);
      RefTree(t, isStatic, st) == Done(d.state, d.ok && t.ok, d.loads)
  {
  }

  lemma OneAct(act: Act, a: Address, isStatic: bool, ls: seq<Sheet>, st: Cells)
    requires ls != []
    ensures CodeActs([act], isStatic, ls) == CodeAct(act, isStatic, ls)
    ensures RefActs([act], a, isStatic, st) == RefAct(act, a, isStatic, st)
  {
    assert Init([act]) == [];
    RefOne(act, a, isStatic, st);
  }

  lemma CodeStep(acts: seq<Act>, act: Act, isStatic: bool, ls: seq<Sheet>)
    requires ls != [] && CodeActs(acts, isStatic, ls).ok
    ensures var d, last := CodeActs(acts, isStatic, ls), CodeAct(act, isStatic, CodeActs(acts, isStatic, ls).state);
      CodeActs(acts + [act], isStatic, ls) == Done(last.state, last.ok, d.loads + last.loads)
  {
    assert Init(acts + [act]) == acts;
  }

  lemma RefStep(acts: seq<Act>, act: Act, a: Address, isStatic: bool, st: Cells)
    requires RefActs(acts, a, isStatic, st).ok
    ensures
      var d, last := RefActs(acts, a, isStatic, st), RefAct(act, a, isStatic, RefActs(acts, a, isStatic, st).state);
      RefActs(acts + [act], a, isStatic, st) == Done(last.state, last.ok, d.loads + last.loads)
  {
    assert Init(acts + [act]) == acts;
  }

  // ---------- the frames ----------

  datatype Move = Load(k: Word) | Store(k: Word, v: Word) | Enter(kind: Kind, target: Address) | End(ok: bool)
  datatype Sight = Got(v: Word) | Kept | Back(ok: bool)
  type Script = seq<Sight> -> Move

  function SightOf(act: Act): Sight {
    match act
    case Loads(_, got) => Got(got)
    case Stores(_, _) => Kept
    case Calls(_, _, callee) => Back(callee.ok)
  }

  function Sights(acts: seq<Act>): seq<Sight> {
    if acts == [] then [] else Sights(Init(acts)) + [SightOf(Last(acts))]
  }

  /** The answers noted, nested frames included. */
  function Answers(acts: seq<Act>): seq<Word>
    decreases acts
  {
    if acts == [] then [] else Answers(Init(acts)) + AnswersOf(Last(acts))
  }

  function AnswersOf(act: Act): seq<Word>
    decreases act
  {
    match act
    case Loads(_, got) => [got]
    case Stores(_, _) => []
    case Calls(_, _, callee) => Answers(callee.acts)
  }

  predicate Refused(acts: seq<Act>, isStatic: bool) {
    isStatic && acts != [] && Last(acts).Stores?
  }

  /** The tree is what these scripts do, given the answers noted in it; fuel bounds the moves of each frame. */
  ghost predicate Played(scripts: Address -> Script, script: Script, t: Tree, isStatic: bool, fuel: nat)
    decreases t
  {
    && PlayedActs(scripts, script, t.address, t.acts, isStatic, fuel)
    && (if |t.acts| < fuel && !Refused(t.acts, isStatic) then script(Sights(t.acts)) == End(t.ok) else !t.ok)
  }

  ghost predicate PlayedActs(scripts: Address -> Script, script: Script, address: Address, acts: seq<Act>,
      isStatic: bool, fuel: nat)
    decreases acts
  {
    acts != [] ==>
      && |acts| <= fuel && !Refused(Init(acts), isStatic)
      && PlayedActs(scripts, script, address, Init(acts), isStatic, fuel)
      && Made(scripts, script(Sights(Init(acts))), address, Last(acts), isStatic, fuel - |acts|)
  }

  ghost predicate Made(scripts: Address -> Script, move: Move, address: Address, act: Act, isStatic: bool, fuel: nat)
    decreases act
  {
    match act
    case Loads(k, _) => move == Load(k)
    case Stores(k, v) => move == Store(k, v)
    case Calls(kind, target, callee) =>
      && move == Enter(kind, target) && callee.address == (if kind.Delegate? then address else target)
      && Played(scripts, scripts(target), callee, isStatic || kind.Static?, fuel)
  }

  lemma OneMove(scripts: Address -> Script, script: Script, address: Address, acts: seq<Act>, act: Act,
      isStatic: bool, fuel: nat)
    requires PlayedActs(scripts, script, address, acts, isStatic, fuel) && |acts| < fuel && !Refused(acts, isStatic)
    requires Made(scripts, script(Sights(acts)), address, act, isStatic, fuel - |acts| - 1)
    ensures PlayedActs(scripts, script, address, acts + [act], isStatic, fuel)
    ensures Sights(acts + [act]) == Sights(acts) + [SightOf(act)]
    ensures Answers(acts + [act]) == Answers(acts) + AnswersOf(act)
    ensures Last(acts + [act]) == act
  {
    hide Made, SightOf, AnswersOf;
    assert Init(acts + [act]) == acts;
  }

  // ---------- one run of the scripts ----------

  /** The reference's run of these scripts. */
  ghost predicate RefRuns(scripts: Address -> Script, script: Script, t: Tree, isStatic: bool, st: Cells, fuel: nat) {
    Played(scripts, script, t, isStatic, fuel) && RefTree(t, isStatic, st).loads == Answers(t.acts)
  }

  lemma {:induction false} AnswersCount(scripts: Address -> Script, script: Script, address: Address, acts: seq<Act>,
      isStatic: bool, st: Cells, fuel: nat)
    requires PlayedActs(scripts, script, address, acts, isStatic, fuel)
    ensures var d := RefActs(acts, address, isStatic, st);
      |d.loads| == |Answers(acts)| && (d.ok <==> !Refused(acts, isStatic))
    decreases acts
  {
    if acts != [] {
      var last := Last(acts);
      AnswersCount(scripts, script, address, Init(acts), isStatic, st, fuel);
      assert acts decreases to last;
      AnswersCountOf(scripts, script(Sights(Init(acts))), address, last, isStatic,
        RefActs(Init(acts), address, isStatic, st).state, fuel - |acts|);
    }
  }

  lemma {:induction false} AnswersCountOf(scripts: Address -> Script, move: Move, address: Address, act: Act,
      isStatic: bool, st: Cells, fuel: nat)
    requires Made(scripts, move, address, act, isStatic, fuel)
    ensures |RefAct(act, address, isStatic, st).loads| == |AnswersOf(act)|
    decreases act
  {
    if act.Calls? {
      var callee := act.callee;
      AnswersCount(scripts, scripts(act.target), callee.address, callee.acts, isStatic || act.kind.Static?, st, fuel);
    }
  }

  /** A prefix of a run, and the act after it. */
  lemma {:induction false} RunUpTo(scripts: Address -> Script, script: Script, address: Address, acts: seq<Act>,
      isStatic: bool, st: Cells, fuel: nat, n: nat)
    requires PlayedActs(scripts, script, address, acts, isStatic, fuel) && n < |acts|
    requires RefActs(acts, address, isStatic, st).loads == Answers(acts)
    ensures PlayedActs(scripts, script, address, acts[..n], isStatic, fuel) && n < fuel && !Refused(acts[..n], isStatic)
    ensures Made(scripts, script(Sights(acts[..n])), address, acts[n], isStatic, fuel - n - 1)
    ensures RefActs(acts[..n], address, isStatic, st).loads == Answers(acts[..n])
    ensures RefAct(acts[n], address, isStatic, RefActs(acts[..n], address, isStatic, st).state).loads
      == AnswersOf(acts[n])
    decreases |acts|
  {
    hide Made, RefAct, AnswersOf;
    var init, last := Init(acts), Last(acts);
    AnswersCount(scripts, script, address, init, isStatic, st, fuel);
    var d := RefActs(init, address, isStatic, st);
    var l := RefAct(last, address, isStatic, d.state).loads;
    assert d.loads + l == Answers(init) + AnswersOf(last);
    assert d.loads == (d.loads + l)[..|d.loads|] && l == (d.loads + l)[|d.loads|..];
    if n < |init| {
      RunUpTo(scripts, script, address, init, isStatic, st, fuel, n);
      assert init[..n] == acts[..n];
    } else {
      assert init == acts[..n];
    }
  }

  /** The scripts and the stores at the start determine the reference's run. */
  lemma {:induction false} OneRun(scripts: Address -> Script, script: Script, t: Tree, u: Tree, isStatic: bool,
      st: Cells, fuel: nat)
    requires RefRuns(scripts, script, t, isStatic, st, fuel) && RefRuns(scripts, script, u, isStatic, st, fuel)
    requires t.address == u.address
    ensures t == u
    decreases t, |t.acts| + 1
  {
    var n := if |t.acts| < |u.acts| then |t.acts| else |u.acts|;
    OneRunActs(scripts, script, t, u, isStatic, st, fuel, n);
    assert t.acts[..|t.acts|] == t.acts && u.acts[..|u.acts|] == u.acts;
    if n < |t.acts| {
      RunUpTo(scripts, script, t.address, t.acts, isStatic, st, fuel, n);
    } else if n < |u.acts| {
      RunUpTo(scripts, script, u.address, u.acts, isStatic, st, fuel, n);
    }
  }

  lemma {:induction false} OneRunActs(scripts: Address -> Script, script: Script, t: Tree, u: Tree, isStatic: bool,
      st: Cells, fuel: nat, n: nat)
    requires RefRuns(scripts, script, t, isStatic, st, fuel) && RefRuns(scripts, script, u, isStatic, st, fuel)
    requires t.address == u.address && n <= |t.acts| && n <= |u.acts|
    ensures t.acts[..n] == u.acts[..n]
    decreases t, n
  {
    hide RefAct, AnswersOf, Made, RefActs, PlayedActs, Sights, Refused, Answers;
    if n > 0 {
      OneRunActs(scripts, script, t, u, isStatic, st, fuel, n - 1);
      RunUpTo(scripts, script, t.address, t.acts, isStatic, st, fuel, n - 1);
      RunUpTo(scripts, script, u.address, u.acts, isStatic, st, fuel, n - 1);
      assert t decreases to t.acts[n - 1];
      SameAct(scripts, script(Sights(t.acts[..n - 1])), t.address, t.acts[n - 1], u.acts[n - 1], isStatic,
        RefActs(t.acts[..n - 1], t.address, isStatic, st).state, fuel - n);
      assert t.acts[..n] == t.acts[..n - 1] + [t.acts[n - 1]] && u.acts[..n] == u.acts[..n - 1] + [u.acts[n - 1]];
    }
  }

  lemma {:induction false} SameAct(scripts: Address -> Script, move: Move, address: Address, act: Act, other: Act,
      isStatic: bool, st: Cells, fuel: nat)
    requires Made(scripts, move, address, act, isStatic, fuel) && Made(scripts, move, address, other, isStatic, fuel)
    requires RefAct(act, address, isStatic, st).loads == AnswersOf(act)
    requires RefAct(other, address, isStatic, st).loads == AnswersOf(other)
    ensures act == other
    decreases act
  {
    if act.Calls? {
      OneRun(scripts, scripts(act.target), act.callee, other.callee, isStatic || act.kind.Static?, st, fuel);
    }
  }

  /** The code's run of any scripts, if all its frames have one address, is the reference's. */
  lemma CodeRunIsRefRun(scripts: Address -> Script, script: Script, t: Tree, fuel: nat)
    requires Played(scripts, script, t, false, fuel) && CodeTree(t, false, []).loads == Answers(t.acts)
    requires OneAddressTree(t, t.address)
    ensures RefRuns(scripts, script, t, false, map[], fuel) && Agrees(t)
    ensures forall u: Tree :: u.address == t.address && RefRuns(scripts, script, u, false, map[], fuel) ==> u == t
  {
    hide Played;
    OneAddressAgrees(t);
    forall u: Tree | u.address == t.address && RefRuns(scripts, script, u, false, map[], fuel) ensures u == t {
      OneRun(scripts, script, t, u, false, map[], fuel);
    }
  }

  class TransientFrame {
    const parent: TransientFrame?
    const address: Address
    const isStatic: bool
    ghost const Repr: set<TransientFrame>
    var slots: map<Address, map<Word, Word>>

    constructor (parent: TransientFrame?, address: Address, isStatic: bool)
      requires parent != null ==> parent.Valid()
      ensures Valid() && fresh(this)
      ensures this.parent == parent && this.address == address && this.isStatic == isStatic && slots == map[]
      ensures Repr == {this} + (if parent == null then {} else parent.Repr)
    {
      this.parent, this.address, this.isStatic, slots := parent, address, isStatic, map[];
      Repr := {this} + (if parent == null then {} else parent.Repr);
    }

    ghost predicate Valid()
      decreases Repr
    {
      if parent == null then Repr == {this}
      else Repr == {this} + parent.Repr && this !in parent.Repr && parent.Valid()
    }

    ghost function Sheets(): (ls: seq<Sheet>)
      requires Valid()
      reads Repr
      ensures ls != [] && ls[0] == Sheet(address, slots) && ls[1..] == Below()
      decreases Repr, 1
    {
      [Sheet(address, slots)] + Below()
    }

    ghost function Below(): seq<Sheet>
      requires Valid()
      reads if parent == null then {} else parent.Repr
      decreases Repr, 0
    {
      if parent == null then [] else parent.Sheets()
    }

    /** tload: the parent's answer is kept under this frame's address. */
    method TLoad(k: Word) returns (v: Word)
      requires Valid()
      modifies Repr
      ensures v == Loaded(old(Sheets()), k) && Sheets() == Cached(old(Sheets()), k)
      decreases Repr
    {
      ghost var ls := Sheets();
      if address in slots && k in slots[address] {
        return slots[address][k];
      }
      if parent == null {
        // the outermost frame leaves at most an empty table behind
        return 0;
      }
      v := parent.TLoad(k);
      slots := PutSlot(slots, address, k, v);
    }

    method TStore(k: Word, v: Word) returns (ok: bool)
      requires Valid()
      modifies this
      ensures ok == !isStatic && Sheets() == if ok then PutTop(old(Sheets()), k, v) else old(Sheets())
    {
      if isStatic {
        return false;
      }
      ghost var below := Below();
      slots := PutSlot(slots, address, k, v);
      assert Below() == below;
      return true;
    }

    method UpdateTransientSlots(a: Address, entries: map<Word, Word>) returns (ok: bool)
      modifies this
      ensures ok == !isStatic
      ensures slots == if isStatic then old(slots) else MergeStorage(old(slots), map[a := entries])
    {
      if isStatic {
        return false;
      }
      MergeOne(slots, a, entries);
      slots := slots[a := SlotsOf(slots, a) + entries];
      return true;
    }

    /** The transient half of writeChangesTo. */
    method WriteChangesTo(dst: TransientFrame)
      requires dst != this
      modifies dst
      ensures dst.slots == if dst.isStatic then old(dst.slots) else MergeStorage(old(dst.slots), slots)
    {
      var left := slots.Keys;
      assert slots - left == map[];
      MergeEmpty(dst.slots);
      while left != {}
        invariant left <= slots.Keys
        invariant dst.slots == if dst.isStatic then old(dst.slots) else MergeStorage(old(dst.slots), slots - left)
      {
        var a :| a in left;
        var _ := dst.UpdateTransientSlots(a, slots[a]);
        MergeStep(old(dst.slots), slots, left, a);
        left := left - {a};
      }
      assert slots - left == slots;
    }

    /** A whole frame with all its descendants: what the scripts do on the code's frames. */
    method Run(scripts: Address -> Script, script: Script, fuel: nat) returns (ok: bool, ghost t: Tree)
      requires Valid()
      modifies Repr
      ensures Played(scripts, script, t, isStatic, fuel) && t.address == address && t.ok == ok
      ensures var d := CodeActs(t.acts, isStatic, old(Sheets()));
        Sheets() == d.state && d.loads == Answers(t.acts) && (ok ==> d.ok)
      decreases fuel, 1
    {
      hide CodeActs, Answers, Played, Made, CodeAct;
      ghost var ls, acts := Sheets(), [];
      var left, history := fuel, [];
      NoMoves(scripts, script, address, isStatic, fuel, ls);
      while left > 0
        invariant left <= fuel && |acts| == fuel - left && history == Sights(acts)
        invariant PlayedActs(scripts, script, address, acts, isStatic, fuel) && !Refused(acts, isStatic)
        invariant var d := CodeActs(acts, isStatic, ls);
          d.ok && Sheets() == d.state && d.loads == Answers(acts)
      {
        left := left - 1;
        ghost var act;
        var done, sight;
        var move := script(history);
        if move.End? {
          t := Tree(address, acts, move.ok);
          Finish(scripts, script, t, isStatic, fuel);
          return move.ok, t;
        }
        done, sight, act := Tick(scripts, move, left);
        OneMove(scripts, script, address, acts, act, isStatic, fuel);
        CodeStep(acts, act, isStatic, ls);
        acts := acts + [act];
        if done {
          t := Tree(address, acts, false);
          Finish(scripts, script, t, isStatic, fuel);
          return false, t;
        }
        history := history + [sight];
      }
      t := Tree(address, acts, false);
      Finish(scripts, script, t, isStatic, fuel);
      return false, t;
    }

    method Tick(scripts: Address -> Script, move: Move, fuel: nat) returns (done: bool, sight: Sight, ghost act: Act)
      requires Valid() && !move.End?
      modifies Repr
      ensures Made(scripts, move, address, act, isStatic, fuel)
      ensures done <==> Refused([act], isStatic)
      ensures !done ==> sight == SightOf(act)
      ensures var d := CodeAct(act, isStatic, old(Sheets()));
        Sheets() == d.state && d.loads == AnswersOf(act) && d.ok == !done
      decreases fuel, 3
    {
      hide Loaded, Cached, Played, CodeTree, Answers, PutTop, Commit;
      match move {
        case Load(k) =>
          var v := TLoad(k);
          return false, Got(v), Loads(k, v);
        case Store(k, v) =>
          var stored := TStore(k, v);
          return !stored, if stored then Kept else Back(false), Stores(k, v);
        case Enter(kind, target) =>
          ghost var callee;
          var ok;
          ok, callee := CallRaw(scripts, kind, target, fuel);
          return false, Back(ok), Calls(kind, target, callee);
      }
    }

    /** The callee runs in a frame of its own, whose entries are committed if it succeeds, unless the call or this
        frame is static. */
    method CallRaw(scripts: Address -> Script, kind: Kind, target: Address, fuel: nat)
        returns (ok: bool, ghost callee: Tree)
      requires Valid()
      modifies Repr
      ensures callee.ok == ok && callee.address == if kind.Delegate? then address else target
      ensures Played(scripts, scripts(target), callee, isStatic || kind.Static?, fuel)
      ensures var d := CodeAct(Calls(kind, target, callee), isStatic, old(Sheets()));
        Sheets() == d.state && d.loads == Answers(callee.acts)
      decreases fuel, 2
    {
      hide CodeActs, Answers, Played;
      ghost var ls := Sheets();
      var child := new TransientFrame(this, if kind.Delegate? then address else target, isStatic || kind.Static?);
      assert child.Sheets() == [Sheet(child.address, map[])] + ls;
      ok, callee := child.Run(scripts, scripts(target), fuel);
      ghost var after := child.Sheets();
      assert after[1..] == Sheets();
      if ok && !kind.Static? {
        ghost var below := Below();
        child.WriteChangesTo(this);
        assert Below() == below;
      }
    }
  }

  lemma NoMoves(scripts: Address -> Script, script: Script, address: Address, isStatic: bool, fuel: nat,
      ls: seq<Sheet>)
    requires ls != []
    ensures PlayedActs(scripts, script, address, [], isStatic, fuel) && Sights([]) == [] && Answers([]) == []
    ensures CodeActs([], isStatic, ls) == Done(ls, true, [])
  {
  }

  lemma Finish(scripts: Address -> Script, script: Script, t: Tree, isStatic: bool, fuel: nat)
    requires PlayedActs(scripts, script, t.address, t.acts, isStatic, fuel)
    requires if |t.acts| < fuel && !Refused(t.acts, isStatic) then script(Sights(t.acts)) == End(t.ok) else !t.ok
    ensures Played(scripts, script, t, isStatic, fuel)
  {
  }
}
