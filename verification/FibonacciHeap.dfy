/** The priority queue of linked trees. There is no decrease-key, so every tree is an exact binomial tree. */
module FibonacciHeap {

  function Pow2(n: nat): (p: nat)
    ensures p >= 1
  {
    if n == 0 then 1 else 2 * Pow2(n - 1)
  }

  /** The ring position addChild uses: right after the first child. */
  function InsertSecond<T>(s: seq<T>, x: T): seq<T> {
    if s == [] then [x] else [s[0], x] + s[1..]
  }

  function NextIndex(i: nat, n: nat): nat { if i + 1 < n then i + 1 else 0 }
  function PrevIndex(i: nat, n: nat): int { if i > 0 then i - 1 else n - 1 }

  ghost predicate Linked(s: seq<Node>)
    reads s
  {
    forall i :: 0 <= i < |s| ==> s[i].right == s[NextIndex(i, |s|)] && s[i].left == s[PrevIndex(i, |s|)]
  }

  ghost function Parts(kids: seq<Node>): seq<set<Node>>
    reads kids
  {
    seq(|kids|, i requires 0 <= i < |kids| reads kids => kids[i].sub)
  }

  ghost function Degrees(kids: seq<Node>): seq<nat>
    reads kids
  {
    seq(|kids|, i requires 0 <= i < |kids| reads kids => kids[i].degree)
  }

  /** A heap-ordered binomial tree with root r and nodes sub: 2^d nodes for d children, none of smaller priority
      than the root, partitioned by the root and the children's trees, whose degrees in ring order are
      0, d - 1, ..., 1. */
  ghost predicate Shape(r: Node, sub: set<Node>, parts: seq<set<Node>>, degrees: seq<nat>) {
    && |parts| == |degrees| && r in sub && |sub| == Pow2(|degrees|)
    && (forall m: Node :: m in sub ==> r.priority <= m.priority)
    && (forall i :: 0 <= i < |parts| ==> degrees[i] == ChildDegree(i, |degrees|) && parts[i] <= sub && r !in parts[i])
    && (forall i, j :: 0 <= i < j < |parts| ==> parts[i] !! parts[j])
    && (forall m: Node {:trigger InPart(m, parts)} :: m in sub && m != r ==> InPart(m, parts))
  }

  ghost predicate InPart(m: Node, parts: seq<set<Node>>) {
    exists i :: 0 <= i < |parts| && m in parts[i]
  }

  function ChildDegree(i: nat, d: nat): int {
    if i == 0 then 0 else d - i
  }

  /** Joining two binomial trees of equal degree. */
  lemma ShapeJoin(x: Node, X: set<Node>, parts: seq<set<Node>>, degrees: seq<nat>, y: Node, Y: set<Node>)
    requires Shape(x, X, parts, degrees) && X !! Y && |Y| == Pow2(|degrees|) && x.priority <= y.priority
    requires forall m: Node :: m in Y ==> y.priority <= m.priority
    ensures Shape(x, X + Y, InsertSecond(parts, Y), InsertSecond(degrees, |degrees|))
  {
    hide InsertSecond;
    var parts', degrees' := InsertSecond(parts, Y), InsertSecond(degrees, |degrees|);
    InsertedAt(parts, Y);
    InsertedAt(degrees, |degrees|);
    DisjointSize(X, Y);
    forall i, j | 0 <= i < j < |parts'|
      ensures parts'[i] !! parts'[j]
    {
      var a, b := if i == 0 then 0 else i - 1, if parts == [] then 0 else j - 1;
      assert parts != [] && i != 1 && j != 1 ==> parts[a] !! parts[b];
    }
    forall m: Node | m in X + Y && m != x
      ensures InPart(m, parts')
    {
      if m in Y {
        assert m in parts'[if parts == [] then 0 else 1];
      } else {
        assert InPart(m, parts);
        var j :| 0 <= j < |parts| && m in parts[j];
        assert m in parts'[if j == 0 then 0 else j + 1];
      }
    }
  }

  class Node {
    const data: int
    const priority: int
    var degree: nat
    var parent: Node?
    var child: Node?
    var left: Node?
    var right: Node?
    /** The children in ring order, starting at child, and all nodes of the tree. */
    ghost var kids: seq<Node>
    ghost var sub: set<Node>

    constructor (data: int, priority: int)
      ensures this.data == data && this.priority == priority
      ensures degree == 0 && parent == null && child == null && kids == [] && sub == {this}
      ensures left == this && right == this
    {
      this.data, this.priority := data, priority;
      degree, parent, child, kids, sub := 0, null, null, [], {this};
      left, right := this, this;
    }

    ghost predicate Kids()
      reads this, kids
    {
      && degree == |kids|
      && child == (if kids == [] then null else kids[0])
      && (forall i, j :: 0 <= i < j < |kids| ==> kids[i] != kids[j])
      && (forall i :: 0 <= i < |kids| ==> kids[i].parent == this)
    }

    /** The children form a circular doubly linked list reached through child. */
    ghost predicate Ring()
      reads this, kids
    {
      Kids() && Linked(kids)
    }

    /** A heap-ordered binomial tree. */
    ghost predicate Binomial()
      reads this, kids
    {
      Shape(this, sub, Parts(kids), Degrees(kids))
    }

    /** addChild: only ring pointers, the parent and the degree change. */
    method AddChild(node: Node)
      requires Ring() && parent == null && node.parent == null && node != this
      modifies this`degree, this`child, this`kids, this`sub, node`parent, node`left, node`right, kids`left, kids`right
      ensures kids == InsertSecond(old(kids), node) && sub == old(sub) + old(node.sub) && degree == old(degree) + 1
      ensures Ring() && node.parent == this
    {
      hide InsertSecond;
      if child == null {
        child := node;
        node.left, node.right := node, node;
      } else {
        var c := child;
        node.left := c;
        node.right := c.right;
        c.right.left := node;
        c.right := node;
      }
      node.parent := this;
      degree := degree + 1;
      sub := sub + node.sub;
      ghost var was := kids;
      kids := InsertSecond(was, node);
      InsertedAt(was, node);
      if was != [] {
        RingInsert(was, node);
      }
      assert Kids() by {
        hide Linked;
        InsertedApart(was, node);
      }
    }
  }

  lemma InsertedApart(s: seq<Node>, x: Node)
    requires x !in s && forall i, j :: 0 <= i < j < |s| ==> s[i] != s[j]
    ensures var t := InsertSecond(s, x); forall i, j :: 0 <= i < j < |t| ==> t[i] != t[j]
  {
    hide InsertSecond;
    InsertedAt(s, x);
  }

  /** The four pointers addChild sets splice the node in right after the first child. */
  lemma RingInsert(was: seq<Node>, node: Node)
    requires was != []
    requires var n := NextIndex(0, |was|);
      && node.left == was[0] && was[0].right == node && node.right == was[n] && was[n].left == node
      && (forall i :: 0 < i < |was| ==> was[i].right == was[NextIndex(i, |was|)])
      && (forall i :: 0 <= i < |was| && i != n ==> was[i].left == was[PrevIndex(i, |was|)])
    ensures Linked(InsertSecond(was, node))
  {
    hide InsertSecond;
    var now := InsertSecond(was, node);
    InsertedAt(was, node);
    forall i | 0 <= i < |now|
      ensures now[i].right == now[NextIndex(i, |now|)] && now[i].left == now[PrevIndex(i, |now|)]
    {
      if 2 <= i {
        assert was[i - 1].right == was[NextIndex(i - 1, |was|)];
        assert i != 2 ==> was[i - 1].left == was[PrevIndex(i - 1, |was|)];
      }
    }
  }

  lemma InsertedAt<T>(s: seq<T>, x: T)
    ensures var t := InsertSecond(s, x);
            && |t| == |s| + 1
            && (s == [] ==> t[0] == x)
            && (s != [] ==> t[0] == s[0] && t[1] == x)
            && (forall i :: 2 <= i < |t| ==> t[i] == s[i - 1])
  {
  }

  // ---------- forests of binomial trees ----------

  ghost predicate Trees(nodes: set<Node>)
    reads nodes
  {
    forall n: Node :: n in nodes ==> (forall k: Node :: k in n.kids ==> k in nodes) && n.Ring() && n.Binomial()
  }

  /** The trees with these node sets, by root, partition the nodes. */
  ghost predicate Partition(subs: map<Node, set<Node>>, nodes: set<Node>) {
    Apart(subs, nodes) && Covered(subs, nodes)
  }

  ghost predicate Apart(subs: map<Node, set<Node>>, nodes: set<Node>) {
    && (forall r: Node :: r in subs ==> r in nodes && subs[r] <= nodes)
    && (forall r: Node, s: Node :: r in subs && s in subs && r != s ==> subs[r] !! subs[s])
  }

  ghost predicate Covered(subs: map<Node, set<Node>>, nodes: set<Node>) {
    forall m: Node {:trigger InSome(m, subs)} :: m in nodes ==> InSome(m, subs)
  }

  ghost predicate InSome(m: Node, subs: map<Node, set<Node>>) {
    exists r: Node :: r in subs && m in subs[r]
  }

  function MergedSubs(subs: map<Node, set<Node>>, x: Node, y: Node): map<Node, set<Node>>
    requires x in subs && y in subs
  {
    map r: Node | r in subs && r != y :: if r == x then subs[x] + subs[y] else subs[r]
  }

  lemma MergeParts(subs: map<Node, set<Node>>, nodes: set<Node>, x: Node, y: Node)
    requires Partition(subs, nodes) && x in subs && y in subs && x != y
    ensures Partition(MergedSubs(subs, x, y), nodes)
  {
    var subs' := MergedSubs(subs, x, y);
    forall r: Node, s: Node | r in subs' && s in subs' && r != s
      ensures subs'[r] !! subs'[s]
    {
      if r == x {
        JoinApart(subs[x], subs[y], subs[s]);
      } else if s == x {
        JoinApart(subs[x], subs[y], subs[r]);
      }
    }
    forall m: Node | m in nodes
      ensures InSome(m, subs')
    {
      assert InSome(m, subs);
      var r: Node :| r in subs && m in subs[r];
      var r' := if r == y then x else r;
      assert r' in subs' && m in subs'[r'];
    }
  }

  lemma JoinApart<T>(a: set<T>, b: set<T>, c: set<T>)
    requires a !! c && b !! c
    ensures a + b !! c && c !! a + b
  {
  }

  ghost function Subs(live: set<Node>): map<Node, set<Node>>
    reads live
  {
    map r: Node | r in live :: r.sub
  }

  ghost predicate Rootless(live: set<Node>)
    reads live
  {
    forall r: Node :: r in live ==> r.parent == null
  }

  ghost predicate Cover(live: set<Node>, nodes: set<Node>)
    reads live
  {
    Rootless(live) && Partition(Subs(live), nodes)
  }

  ghost predicate Forest(live: set<Node>, nodes: set<Node>)
    reads nodes, live
  {
    Trees(nodes) && Cover(live, nodes)
  }

  lemma DisjointSize<T>(a: set<T>, b: set<T>)
    requires a !! b
    ensures |a + b| == |a| + |b|
  {
  }

  lemma TreeAt(n: Node, nodes: set<Node>)
    requires Trees(nodes) && n in nodes
    ensures n.Ring() && n.Binomial() && forall k: Node :: k in n.kids ==> k in nodes
  {
  }

  lemma ApartAt(x: Node, y: Node, live: set<Node>, nodes: set<Node>)
    requires Partition(Subs(live), nodes) && x in live && y in live && x != y
    ensures live <= nodes && x.sub !! y.sub && x.sub <= nodes
  {
    assert Subs(live)[x] == x.sub && Subs(live)[y] == y.sub;
    forall r: Node | r in live ensures r in nodes {
      assert r in Subs(live);
    }
  }

  lemma KidsBelong(x: Node)
    requires x.Ring()
    ensures |x.kids| == x.degree && forall k: Node :: k in x.kids ==> k.parent == x
  {
  }

  lemma InsertedMember<T>(s: seq<T>, x: T)
    ensures forall t :: t in InsertSecond(s, x) <==> t == x || t in s
  {
    var r := InsertSecond(s, x);
    forall t | t in s ensures t in r {
      var i :| 0 <= i < |s| && s[i] == t;
      assert r[if i == 0 then 0 else i + 1] == t;
    }
    assert r[if s == [] then 0 else 1] == x;
  }

  lemma RingFacts(x: Node)
    requires x.Ring()
    ensures x.child == (if x.kids == [] then null else x.kids[0]) && NoRepeats(x.kids)
    ensures forall j :: 0 <= j < |x.kids| ==> x.kids[j].right == x.kids[NextIndex(j, |x.kids|)]
  {
  }

  /** addChild on two roots of equal degree d makes a binomial tree of degree d + 1. */
  method JoinTrees(x: Node, y: Node)
    requires x.Ring() && x.Binomial() && y.Ring() && y.Binomial()
    requires x.parent == null && y.parent == null && x.degree == y.degree && x.sub !! y.sub
    requires x.priority <= y.priority
    modifies x`degree, x`child, x`kids, x`sub, y`parent, y`left, y`right, x.kids`left, x.kids`right
    ensures x.kids == InsertSecond(old(x.kids), y) && x.sub == old(x.sub) + old(y.sub) && x.degree == old(x.degree) + 1
    ensures x.Ring() && x.Binomial()
  {
    hide Node.Ring, Linked, Shape;
    KidsBelong(x);
    KidsBelong(y);
    ShapeFacts(y);
    ShapeJoin(x, x.sub, Parts(x.kids), Degrees(x.kids), y, y.sub);
    x.AddChild(y);
    assert Parts(x.kids) == InsertSecond(old(Parts(x.kids)), y.sub);
    assert Degrees(x.kids) == InsertSecond(old(Degrees(x.kids)), y.degree);
  }

  lemma ShapeFacts(y: Node)
    requires y.Binomial()
    ensures y in y.sub && |y.sub| == Pow2(|y.kids|) && forall m: Node :: m in y.sub ==> y.priority <= m.priority
  {
  }

  /** Every other tree of the heap is left as it was. */
  method JoinWithin(x: Node, y: Node, ghost nodes: set<Node>)
    requires Trees(nodes) && x in nodes && y in nodes && x != y
    requires x.parent == null && y.parent == null && x.degree == y.degree && x.sub !! y.sub
    requires x.priority <= y.priority
    modifies x`degree, x`child, x`kids, x`sub, y`parent, y`left, y`right, x.kids`left, x.kids`right
    ensures x.sub == old(x.sub) + old(y.sub) && x.degree == old(x.degree) + 1
    ensures Trees(nodes)
  {
    hide InsertSecond, Shape, Linked;
    KidsBelong(x);
    ghost var was := x.kids;
    JoinTrees(x, y);
    InsertedMember(was, y);
    forall n: Node | n in nodes
      ensures (forall k: Node :: k in n.kids ==> k in nodes) && n.Ring() && n.Binomial()
    {
      if n != x {
        assert old(n.Ring()) && old(n.Binomial());
        assert forall i :: 0 <= i < |n.kids| ==> old(n.kids[i].parent) == n && n.kids[i] != x && n.kids[i] != y;
        assert Linked(n.kids) == old(Linked(n.kids));
        assert Parts(n.kids) == old(Parts(n.kids));
        assert Degrees(n.kids) == old(Degrees(n.kids));
      }
    }
  }

  /** One link step on a forest. */
  method Link(x: Node, y: Node, ghost live: set<Node>, ghost nodes: set<Node>)
    requires Forest(live, nodes) && x in live && y in live && x != y
    requires x.degree == y.degree && x.priority <= y.priority
    modifies x`degree, x`child, x`kids, x`sub, y`parent, y`left, y`right, x.kids`left, x.kids`right
    ensures Forest(live - {y}, nodes)
    ensures x.degree == old(x.degree) + 1
  {
    hide Trees, Partition;
    ApartAt(x, y, live, nodes);
    ghost var subs := Subs(live);
    JoinWithin(x, y, nodes);
    MergeParts(subs, nodes, x, y);
    assert Subs(live - {y}) == MergedSubs(subs, x, y);
  }

  // ---------- the queue's contents ----------

  type Entry = (int, int)

  function Payload(n: Node): Entry { (n.priority, n.data) }

  /** All (priority, data) pairs held by these nodes; payloads never change, so this needs no heap. */
  ghost function Contents(nodes: set<Node>): multiset<Entry>
    decreases |nodes|
  {
    if nodes == {} then multiset{} else
      var n: Node :| n in nodes;
      Contents(nodes - {n}) + multiset{Payload(n)}
  }

  lemma {:induction false} ContentsWithout(nodes: set<Node>, n: Node)
    requires n in nodes
    ensures Contents(nodes) == Contents(nodes - {n}) + multiset{Payload(n)}
    decreases |nodes|
  {
    var m: Node :| m in nodes && Contents(nodes) == Contents(nodes - {m}) + multiset{Payload(m)};
    if m != n {
      ContentsWithout(nodes - {m}, n);
      ContentsWithout(nodes - {n}, m);
      assert nodes - {m} - {n} == nodes - {n} - {m};
    }
  }

  lemma {:induction false} ContentsHeld(nodes: set<Node>, e: Entry)
    requires e in Contents(nodes)
    ensures exists n: Node :: n in nodes && Payload(n) == e
    decreases |nodes|
  {
    var m: Node :| m in nodes && Contents(nodes) == Contents(nodes - {m}) + multiset{Payload(m)};
    if Payload(m) != e {
      ContentsHeld(nodes - {m}, e);
    }
  }

  lemma {:induction false} ContentsSize(nodes: set<Node>)
    ensures |Contents(nodes)| == |nodes|
    decreases |nodes|
  {
    if nodes != {} {
      var n: Node :| n in nodes;
      ContentsWithout(nodes, n);
      ContentsSize(nodes - {n});
    }
  }

  predicate IsLeast(e: Entry, bag: multiset<Entry>) {
    e in bag && forall f :: f in bag ==> e.0 <= f.0
  }

  /** These deletions, one after another, empty part of the queue. */
  predicate DeleteRun(bag: multiset<Entry>, outs: seq<Entry>) {
    outs == [] || (IsLeast(outs[0], bag) && DeleteRun(bag - multiset{outs[0]}, outs[1..]))
  }

  datatype Operation = Put(e: Entry) | Take

  /** The queue as a multiset: these operations give these answers and leave these entries. An empty queue
      answers a zero priority and leaves the caller's zeroed buffer. */
  ghost predicate Replayed(bag: multiset<Entry>, ops: seq<Operation>, outs: seq<Entry>, left: multiset<Entry>)
    decreases |ops|
  {
    if ops == [] then outs == [] && left == bag
    else if ops[0].Put? then Replayed(bag + multiset{ops[0].e}, ops[1..], outs, left)
    else
      && outs != []
      && if bag == multiset{} then outs[0] == (0, 0) && Replayed(bag, ops[1..], outs[1..], left)
         else IsLeast(outs[0], bag) && Replayed(bag - multiset{outs[0]}, ops[1..], outs[1..], left)
  }

  lemma {:induction false} DeletionsKeep(bag: multiset<Entry>, outs: seq<Entry>)
    requires DeleteRun(bag, outs)
    ensures multiset(outs) <= bag && (|outs| == |bag| ==> multiset(outs) == bag)
  {
    if outs != [] {
      var left := bag - multiset{outs[0]};
      DeletionsKeep(left, outs[1..]);
      OneOut(bag, outs[0], multiset(outs[1..]));
      assert outs == [outs[0]] + outs[1..];
    }
  }

  lemma OneOut<T>(bag: multiset<T>, e: T, later: multiset<T>)
    requires e in bag && later <= bag - multiset{e}
    ensures multiset{e} + later <= bag && |bag| == |bag - multiset{e}| + 1
    ensures later == bag - multiset{e} ==> multiset{e} + later == bag
  {
    assert bag == bag - multiset{e} + multiset{e};
  }

  /** Uninterrupted deletions come out in nondecreasing priority and lose or repeat nothing. */
  lemma {:induction false} DeletionsSort(bag: multiset<Entry>, outs: seq<Entry>)
    requires DeleteRun(bag, outs)
    ensures multiset(outs) <= bag && (|outs| == |bag| ==> multiset(outs) == bag)
    ensures forall i, j :: 0 <= i < j < |outs| ==> outs[i].0 <= outs[j].0
  {
    hide IsLeast;
    DeletionsKeep(bag, outs);
    if outs != [] {
      var left := bag - multiset{outs[0]};
      DeletionsKeep(left, outs[1..]);
      DeletionsSort(left, outs[1..]);
      FirstLeast(outs[0], bag, outs[1..]);
    }
  }

  lemma FirstLeast(e: Entry, bag: multiset<Entry>, later: seq<Entry>)
    requires IsLeast(e, bag) && multiset(later) <= bag - multiset{e}
    ensures forall j :: 0 <= j < |later| ==> e.0 <= later[j].0
  {
    forall j | 0 <= j < |later|
      ensures e.0 <= later[j].0
    {
      assert later[j] in multiset(later);
      assert later[j] in bag;
    }
  }

  /** Nothing but deletions, no more than there are entries: a deletion run that leaves the rest. */
  lemma {:induction false} TakesDelete(bag: multiset<Entry>, n: nat, outs: seq<Entry>, left: multiset<Entry>)
    requires n <= |bag| && Replayed(bag, seq(n, _ => Take), outs, left)
    ensures DeleteRun(bag, outs) && |outs| == n && left + multiset(outs) == bag
    decreases n
  {
    hide IsLeast, Replayed;
    if n > 0 {
      assert bag != multiset{};
      FirstTake(bag, n, outs, left);
      LeastIsIn(outs[0], bag);
      TakesDelete(bag - multiset{outs[0]}, n - 1, outs[1..], left);
      assert outs == [outs[0]] + outs[1..];
    } else {
      NoTake(bag, outs, left);
    }
  }

  lemma FirstTake(bag: multiset<Entry>, n: nat, outs: seq<Entry>, left: multiset<Entry>)
    requires n > 0 && bag != multiset{} && Replayed(bag, seq(n, _ => Take), outs, left)
    ensures outs != [] && IsLeast(outs[0], bag)
    ensures Replayed(bag - multiset{outs[0]}, seq(n - 1, _ => Take), outs[1..], left)
  {
    hide IsLeast;
    var ops: seq<Operation> := seq(n, _ => Take);
    assert ops[1..] == seq(n - 1, _ => Take);
  }

  lemma NoTake(bag: multiset<Entry>, outs: seq<Entry>, left: multiset<Entry>)
    requires Replayed(bag, seq(0, _ => Take), outs, left)
    ensures outs == [] && left == bag
  {
    var ops: seq<Operation> := seq(0, _ => Take);
    assert ops == [];
  }

  lemma LeastIsIn(e: Entry, bag: multiset<Entry>)
    requires IsLeast(e, bag)
    ensures bag == bag - multiset{e} + multiset{e}
  {
  }

  // ---------- degrees and logarithms ----------

  function Log2(n: nat): (l: nat)
    requires n > 0
    ensures Pow2(l) <= n < Pow2(l + 1)
  {
    if n == 1 then 0 else 1 + Log2(n / 2)
  }

  lemma {:induction false} Pow2Grows(a: nat, b: nat)
    requires a <= b
    ensures Pow2(a) <= Pow2(b)
  {
    if a < b {
      Pow2Grows(a, b - 1);
    }
  }

  lemma SubsetSize<T>(a: set<T>, b: set<T>)
    requires a <= b
    ensures |a| <= |b|
  {
    DisjointSize(a, b - a);
    assert a + (b - a) == b;
  }

  /** The degree table is long enough: a tree of degree d holds 2^d of the nodes. */
  lemma DegreeBound(x: Node, live: set<Node>, nodes: set<Node>)
    requires Forest(live, nodes) && x in live && nodes != {}
    ensures x.degree <= Log2(|nodes|)
  {
    hide Partition, Shape;
    TreeInForest(x, live, nodes);
    SubsetSize(x.sub, nodes);
    if x.degree > Log2(|nodes|) {
      Pow2Grows(Log2(|nodes|) + 1, x.degree);
    }
  }

  lemma TreeInForest(x: Node, live: set<Node>, nodes: set<Node>)
    requires Forest(live, nodes) && x in live
    ensures x in nodes && x.sub <= nodes && x in x.sub && |x.sub| == Pow2(x.degree)
    ensures forall m: Node :: m in x.sub ==> x.priority <= m.priority
  {
    assert x in Subs(live);
    ShapeFacts(x);
  }

  /** A least root is a least node. */
  lemma LeastRoot(min: Node, live: set<Node>, nodes: set<Node>)
    requires Forest(live, nodes) && min in live && forall r: Node :: r in live ==> min.priority <= r.priority
    ensures IsLeast(Payload(min), Contents(nodes))
  {
    TreeInForest(min, live, nodes);
    ContentsWithout(nodes, min);
    forall e | e in Contents(nodes)
      ensures min.priority <= e.0
    {
      ContentsHeld(nodes, e);
      var n: Node :| n in nodes && Payload(n) == e;
      assert InSome(n, Subs(live));
      var r: Node :| r in Subs(live) && n in Subs(live)[r];
      TreeInForest(r, live, nodes);
    }
  }

  lemma Appended(s: seq<Node>, n: Node)
    ensures RootSet(s + [n]) == RootSet(s) + {n}
    ensures NoRepeats(s) && n !in RootSet(s) ==> NoRepeats(s + [n])
  {
  }

  lemma LiveWithin(live: set<Node>, nodes: set<Node>)
    requires Forest(live, nodes)
    ensures live <= nodes
  {
    forall r: Node | r in live
      ensures r in nodes
    {
      assert r in Subs(live);
    }
  }

  ghost function Promoted(m: Node, live: set<Node>): set<Node>
    reads m
  {
    live - {m} + RootSet(m.kids)
  }

  lemma PromotedCover(m: Node, live: set<Node>, nodes: set<Node>)
    requires Covered(Subs(live), nodes) && m in live && m.Binomial()
    ensures Covered(Subs(Promoted(m, live)), nodes - {m})
  {
    var subs, subs' := Subs(live), Subs(Promoted(m, live));
    forall n: Node | n in nodes - {m}
      ensures InSome(n, subs')
    {
      assert InSome(n, subs);
      var r: Node :| r in subs && n in subs[r];
      if r == m {
        assert InPart(n, Parts(m.kids));
        var i :| 0 <= i < |m.kids| && n in Parts(m.kids)[i];
        assert m.kids[i] in subs' && n in subs'[m.kids[i]];
      } else {
        assert r in subs' && n in subs'[r];
      }
    }
  }

  lemma KidApart(k: Node, m: Node, nodes: set<Node>)
    requires Trees(nodes) && m in nodes && k in m.kids
    ensures k in nodes && k != m && m !in k.sub && k.sub <= m.sub
    ensures forall j: Node :: j in m.kids && j != k ==> j.sub !! k.sub
  {
    ShapeFacts(k);
    var i :| 0 <= i < |m.kids| && m.kids[i] == k;
    assert Parts(m.kids)[i] == k.sub;
    forall j: Node | j in m.kids && j != k
      ensures j.sub !! k.sub
    {
      var h :| 0 <= h < |m.kids| && m.kids[h] == j;
      assert Parts(m.kids)[h] == j.sub;
    }
  }

  lemma PromotedApart(m: Node, live: set<Node>, nodes: set<Node>)
    requires Trees(nodes) && Apart(Subs(live), nodes) && m in live
    ensures Apart(Subs(Promoted(m, live)), nodes - {m})
  {
    hide Trees, Node.Ring, Node.Binomial;
    assert m in Subs(live);
    var subs := Subs(live);
    forall r: Node | r in Promoted(m, live)
      ensures r in nodes - {m} && r.sub <= nodes - {m}
      ensures forall s: Node :: s in Promoted(m, live) && r != s ==> r.sub !! s.sub
    {
      TreeAt(m, nodes);
      ShapeFacts(m);
      if r in m.kids {
        KidApart(r, m, nodes);
        assert m.sub == subs[m];
      } else {
        assert r.sub == subs[r];
      }
      forall s: Node | s in Promoted(m, live) && r != s
        ensures r.sub !! s.sub
      {
        if s in m.kids {
          KidApart(s, m, nodes);
        } else {
          assert s.sub == subs[s];
        }
      }
    }
  }

  /** Dropping a root leaves its children's trees. */
  lemma PromoteParts(m: Node, live: set<Node>, nodes: set<Node>)
    requires Forest(live, nodes) && m in live
    ensures Partition(Subs(Promoted(m, live)), nodes - {m})
  {
    hide Covered, Apart;
    TreeInForest(m, live, nodes);
    PromotedApart(m, live, nodes);
    PromotedCover(m, live, nodes);
  }

  function RootSet(s: seq<Node>): set<Node> { set n: Node | n in s }

  predicate NoRepeats(s: seq<Node>) {
    forall i, j :: 0 <= i < j < |s| ==> s[i] != s[j]
  }

  // ---------- the queue ----------

  /** The degree table: entry k holds a filed tree of degree k, and every filed tree is there. */
  ghost predicate Table(entries: seq<Node?>, filed: set<Node>)
    reads filed`degree
  {
    && (forall k :: 0 <= k < |entries| && entries[k] != null ==> entries[k] in filed && entries[k].degree == k)
    && (forall n: Node :: n in filed ==> n.degree < |entries| && entries[n.degree] == n)
  }

  lemma TableTake(entries: seq<Node?>, filed: set<Node>, y: Node, d: nat)
    requires Table(entries, filed) && d < |entries| && entries[d] == y
    ensures y in filed && y.degree == d && Table(entries[d := null], filed - {y})
  {
  }

  lemma TablePut(entries: seq<Node?>, filed: set<Node>, x: Node)
    requires Table(entries, filed) && x.degree < |entries| && entries[x.degree] == null
    ensures x !in filed && Table(entries[x.degree := x], filed + {x})
  {
  }

  /** Root degrees strictly increase along the root list, so no two roots share one. */
  ghost predicate DegreesIncrease(roots: seq<Node>)
    reads roots
  {
    forall i, j :: 0 <= i < j < |roots| ==> roots[i].degree < roots[j].degree
  }

  class Heap {
    var roots: seq<Node>
    var min: Node?
    var count: nat
    ghost var nodes: set<Node>

    ghost predicate Planted()
      reads this, nodes, roots
    {
      NoRepeats(roots) && Forest(RootSet(roots), nodes) && count == |nodes|
    }

    ghost predicate Valid()
      reads this, nodes, roots
    {
      && Planted()
      && (min == null <==> roots == [])
      && (min != null ==> min in roots && forall r: Node :: r in roots ==> min.priority <= r.priority)
    }

    constructor ()
      ensures Valid() && nodes == {} && fresh(this)
    {
      roots, min, count, nodes := [], null, 0, {};
    }

    method Insert(data: int, priority: int)
      requires Valid()
      modifies this
      ensures Valid() && fresh(nodes - old(nodes)) && count == old(count) + 1
      ensures Contents(nodes) == old(Contents(nodes)) + multiset{(priority, data)}
    {
      hide Forest, Contents, NoRepeats, RootSet;
      ghost var was := roots;
      LiveWithin(RootSet(roots), nodes);
      var node := new Node(data, priority);
      SinglePlanted(node, RootSet(roots), nodes);
      Appended(roots, node);
      roots := roots + [node];
      assert node in roots && forall r: Node :: r in roots <==> r in was || r == node;
      if min == null || node.priority < min.priority {
        min := node;
      }
      count := count + 1;
      nodes := nodes + {node};
      assert nodes - {node} == old(nodes);
      ContentsWithout(nodes, node);
    }

    /** Gives the entry deleteMin would take. */
    method GetMin(outData: int) returns (data: int)
      requires Valid()
      ensures min == null <==> Contents(nodes) == multiset{}
      ensures min == null ==> data == outData
      ensures min != null ==> data == min.data && IsLeast(Payload(min), Contents(nodes))
    {
      data := outData;
      EmptyHeap(RootSet(roots), nodes);
      if min != null {
        LeastRoot(min, RootSet(roots), nodes);
        data := min.data;
      }
    }

    /** Afterwards no two roots have the same degree, and every node is still there. */
    method Consolidate()
      requires Planted() && min == null
      modifies this`roots, this`min, nodes
      ensures Valid() && DegreesIncrease(roots)
    {
      hide Forest, Table, Log2, NoRepeats, RootSet, DegreesIncrease;
      EmptyHeap(RootSet(roots), nodes);
      if count == 0 {
        NoRoots(roots);
        return;
      }
      var maxDegree := Log2(count) + 2;
      var aux: seq<Node?> := seq(maxDegree, _ => null);
      ghost var filed: set<Node> := {};
      var i, trees := 0, roots;
      NoTrees(aux);
      assert {} + RootSet(trees[0..]) == RootSet(trees) by { assert trees[0..] == trees; }
      while i < |trees|
        invariant 0 <= i <= |trees| && |aux| == maxDegree
        invariant filed !! RootSet(trees[i..]) && Forest(filed + RootSet(trees[i..]), nodes)
        invariant Table(aux, filed)
      {
        RestAt(trees, i);
        ghost var rest := RootSet(trees[i + 1..]);
        assert filed + RootSet(trees[i..]) == filed + rest + {trees[i]};
        aux, filed := FileTree(trees[i], aux, nodes, filed, rest);
        i := i + 1;
      }
      NoRoots(trees[i..]);
      assert filed + {} == filed;
      roots, min := CollectRoots(aux, filed);
    }

    /** A client's whole run: any sequence of insertions and deletions behaves as on a multiset of entries. */
    method Replay(ops: seq<Operation>) returns (outs: seq<Entry>)
      requires Valid()
      modifies this, nodes
      ensures Valid() && Replayed(old(Contents(nodes)), ops, outs, Contents(nodes))
      ensures count == |Contents(nodes)|
      decreases ops
    {
      ContentsSize(nodes);
      hide Forest, Contents, NoRepeats, RootSet, DegreesIncrease, IsLeast;
      if ops == [] {
        return [];
      }
      match ops[0] {
        case Put(e) =>
          Insert(e.1, e.0);
          outs := Replay(ops[1..]);
        case Take =>
          var data, priority := DeleteMin(0);
          var rest := Replay(ops[1..]);
          outs := [(priority, data)] + rest;
          assert outs[1..] == rest;
      }
    }

    /** Emptying the queue gives its entries in nondecreasing order of priority. */
    method Drain() returns (outs: seq<Entry>)
      requires Valid()
      modifies this, nodes
      ensures Valid() && count == 0 && multiset(outs) == old(Contents(nodes))
      ensures forall i, j :: 0 <= i < j < |outs| ==> outs[i].0 <= outs[j].0
    {
      hide Contents, Forest, DeleteRun, Replayed;
      ContentsSize(nodes);
      ghost var bag := Contents(nodes);
      outs := Replay(seq(count, _ => Take));
      TakesDelete(bag, |bag|, outs, Contents(nodes));
      DeletionsSort(bag, outs);
    }

    method IsEmpty() returns (empty: bool)
      requires Valid()
      ensures empty <==> Contents(nodes) == multiset{}
    {
      ContentsSize(nodes);
      return count == 0;
    }

    method Size() returns (size: nat)
      requires Valid()
      ensures size == |Contents(nodes)|
    {
      ContentsSize(nodes);
      return count;
    }

    /** Takes an entry of least priority; an empty queue answers priority 0 and leaves outData alone. */
    method DeleteMin(outData: int) returns (data: int, priority: int)
      requires Valid()
      modifies this, nodes
      ensures Valid() && nodes <= old(nodes)
      ensures old(Contents(nodes)) == multiset{} ==>
        data == outData && priority == 0 && Contents(nodes) == multiset{}
      ensures old(Contents(nodes)) != multiset{} ==>
        && IsLeast((priority, data), old(Contents(nodes)))
        && Contents(nodes) == old(Contents(nodes)) - multiset{(priority, data)}
        && count == old(count) - 1 && DegreesIncrease(roots)
    {
      hide Forest, Contents, NoRepeats, RootSet, DegreesIncrease;
      EmptyHeap(RootSet(roots), nodes);
      NoRoots(roots);
      Members(roots);
      LiveWithin(RootSet(roots), nodes);
      if min == null {
        return outData, 0;
      }
      var m: Node := min;
      data, priority := m.data, m.priority;
      LeastRoot(m, RootSet(roots), nodes);
      ContentsWithout(nodes, m);
      Uproot(m);
      min := null;
      count := count - 1;
      nodes := nodes - {m};
      Consolidate();
    }

    /** The children of the least root become roots. */
    method PromoteKids(m: Node)
      requires Trees(nodes) && m in nodes
      modifies this`roots, m`child, m.kids`parent, m.kids`left, m.kids`right
      ensures roots == old(roots) + m.kids
      ensures forall k: Node :: k in m.kids ==> k.parent == null
    {
      hide Trees, Node.Binomial, Node.Ring;
      TreeAt(m, nodes);
      RingFacts(m);
      var child := m.child;
      ghost var kids := m.kids;
      if child != null {
        var start, more := child, true;
        ghost var i := 0;
        while more
          invariant 0 <= i <= |kids| && (more <==> i < |kids|)
          invariant more ==> child == kids[i]
          invariant roots == old(roots) + kids[..i]
          invariant forall j :: 0 <= j < i ==> kids[j].parent == null
          invariant forall j :: i <= j < |kids| ==> kids[j].right == kids[NextIndex(j, |kids|)]
          decreases |kids| - i
        {
          var node: Node := child;
          var next := node.right;
          node.parent, node.left, node.right := null, null, null;
          roots := roots + [node];
          child := next;
          more := child != start;
          assert kids[..i + 1] == kids[..i] + [kids[i]];
          i := i + 1;
        }
        assert kids[..i] == kids;
      }
      m.child := null;
    }

    /** The promoted and the remaining trees keep their shape. */
    method PromoteTrees(m: Node)
      requires Trees(nodes) && m in nodes && m.parent == null
      modifies this`roots, m`child, m.kids`parent, m.kids`left, m.kids`right
      ensures roots == old(roots) + m.kids
      ensures forall k: Node :: k in m.kids ==> k.parent == null
      ensures Trees(nodes - {m})
    {
      hide Shape, Linked;
      TreeAt(m, nodes);
      PromoteKids(m);
      forall n: Node | n in nodes - {m}
        ensures (forall k: Node :: k in n.kids ==> k in nodes - {m}) && n.Ring() && n.Binomial()
      {
        assert old(n.Ring()) && old(n.Binomial());
        assert forall i :: 0 <= i < |n.kids| ==> old(n.kids[i].parent) == n && n.kids[i] !in m.kids;
        assert Linked(n.kids) == old(Linked(n.kids));
        assert Parts(n.kids) == old(Parts(n.kids));
        assert Degrees(n.kids) == old(Degrees(n.kids));
      }
    }

    method PromoteWithin(m: Node)
      requires Forest(RootSet(roots), nodes) && m in roots
      modifies this`roots, m`child, m.kids`parent, m.kids`left, m.kids`right
      ensures roots == old(roots) + m.kids
      ensures Forest(Promoted(m, RootSet(old(roots))), nodes - {m})
    {
      hide Trees, Partition;
      ghost var live := RootSet(roots);
      LiveWithin(live, nodes);
      PromoteParts(m, live, nodes);
      ghost var subs := Subs(Promoted(m, live));
      PromoteTrees(m);
      assert Subs(Promoted(m, live)) == subs;
    }

    /** The first half of deleteMin: the least root leaves and its children become roots. */
    method Uproot(m: Node)
      requires Planted() && m in roots
      modifies this`roots, nodes
      ensures NoRepeats(roots) && Forest(RootSet(roots), nodes - {m})
    {
      hide Forest, NoRepeats, RootSet;
      Members(roots);
      KidsApart(m, roots, nodes);
      LinkFrame(m, RootSet(roots), nodes);
      ghost var left := Promoted(m, RootSet(roots));
      PromoteWithin(m);
      assert Forest(left, nodes - {m});
      var kept := RemoveNode(roots, m);
      assert RootSet(kept) == left;
      roots := kept;
    }
  }

  /** The loop of deleteMin that takes the least root off the list. */
  method RemoveNode(s: seq<Node>, m: Node) returns (t: seq<Node>)
    requires NoRepeats(s) && m in s
    ensures NoRepeats(t) && RootSet(t) == RootSet(s) - {m}
  {
    t := s;
    var i := 0;
    while i < |s|
      invariant i <= |s| && m !in s[..i] && t == s
    {
      if s[i] == m {
        Unordered(s, i);
        return UnorderedRemove(s, i);
      }
      i := i + 1;
    }
  }

  lemma Unordered(s: seq<Node>, i: nat)
    requires NoRepeats(s) && i < |s|
    ensures NoRepeats(UnorderedRemove(s, i)) && RootSet(UnorderedRemove(s, i)) == RootSet(s) - {s[i]}
  {
    var t := UnorderedRemove(s, i);
    assert forall j :: 0 <= j < |t| ==> t[j] == if j == i then s[|s| - 1] else s[j];
    forall n: Node | n in s && n != s[i]
      ensures n in t
    {
      var j :| 0 <= j < |s| && s[j] == n;
      assert t[if j == |s| - 1 then i else j] == n;
    }
  }

  lemma Members(s: seq<Node>)
    ensures forall n: Node :: n in RootSet(s) <==> n in s
  {
  }

  /** The children of a root are not roots yet, and each is met once on the ring. */
  lemma KidsApart(m: Node, roots: seq<Node>, nodes: set<Node>)
    requires NoRepeats(roots) && Forest(RootSet(roots), nodes) && m in roots
    ensures NoRepeats(roots + m.kids) && RootSet(roots + m.kids) - {m} == Promoted(m, RootSet(roots))
  {
    hide Partition, Shape;
    LiveWithin(RootSet(roots), nodes);
    TreeAt(m, nodes);
    assert forall i :: 0 <= i < |m.kids| ==> m.kids[i].parent == m;
    assert forall r: Node :: r in RootSet(roots) ==> r.parent == null;
    assert forall n: Node :: n in roots + m.kids <==> n in roots || n in m.kids;
  }

  /** The list's unorderedRemove: the last element takes the removed one's place. */
  function UnorderedRemove<T>(s: seq<T>, i: nat): seq<T>
    requires i < |s|
  {
    if i == |s| - 1 then s[..i] else s[..i] + [s[|s| - 1]] + s[i + 1..|s| - 1]
  }

  /** The last loop of consolidate. */
  method CollectRoots(aux: seq<Node?>, ghost filed: set<Node>) returns (roots: seq<Node>, min: Node?)
    requires Table(aux, filed)
    ensures RootSet(roots) == filed && NoRepeats(roots) && DegreesIncrease(roots)
    ensures min == null <==> roots == []
    ensures min != null ==> min in roots && forall r: Node :: r in roots ==> min.priority <= r.priority
  {
    roots, min := [], null;
    for i := 0 to |aux|
      invariant forall r: Node :: r in roots ==> r in filed && r.degree < i
      invariant forall n: Node :: n in filed && n.degree < i ==> n in roots
      invariant DegreesIncrease(roots)
      invariant min == null <==> roots == []
      invariant min != null ==> min in roots && forall r: Node :: r in roots ==> min.priority <= r.priority
    {
      var t := aux[i];
      if t != null {
        roots := roots + [t];
        if min == null || t.priority < min.priority {
          min := t;
        }
      }
    }
  }

  lemma RestAt(s: seq<Node>, i: nat)
    requires NoRepeats(s) && i < |s|
    ensures RootSet(s[i..]) == RootSet(s[i + 1..]) + {s[i]} && s[i] !in RootSet(s[i + 1..])
  {
    assert s[i..] == [s[i]] + s[i + 1..];
  }

  lemma NoRoots(s: seq<Node>)
    ensures s == [] <==> RootSet(s) == {}
    ensures s == [] ==> DegreesIncrease(s)
  {
    if s != [] {
      assert s[0] in RootSet(s);
    }
  }

  lemma NoTrees(entries: seq<Node?>)
    requires forall k :: 0 <= k < |entries| ==> entries[k] == null
    ensures Table(entries, {})
  {
  }

  /** Links two roots of equal degree under the smaller one; the degree table of the others stands. */
  method LinkPair(x: Node, y: Node, ghost kept: set<Node>, ghost nodes: set<Node>,
      ghost entries: seq<Node?>, ghost filed: set<Node>) returns (winner: Node)
    requires x != y && x !in kept && y !in kept && x.degree == y.degree
    requires Forest(kept + {x, y}, nodes) && Table(entries, filed) && filed <= kept
    modifies nodes
    ensures winner == x || winner == y
    ensures Forest(kept + {winner}, nodes) && Table(entries, filed)
    ensures winner.degree == old(x.degree) + 1
  {
    hide Forest, Table;
    ghost var live := kept + {x, y};
    LinkFrame(x, live, nodes);
    LinkFrame(y, live, nodes);
    if y.priority < x.priority {
      Link(y, x, live, nodes);
      assert live - {x} == kept + {y};
      winner := y;
    } else {
      Link(x, y, live, nodes);
      assert live - {y} == kept + {x};
      winner := x;
    }
  }

  /** The inner loop of consolidate: while the tree's degree is taken in the table, the two trees are linked. */
  method FileTree(tree: Node, aux: seq<Node?>, ghost nodes: set<Node>, ghost filed: set<Node>, ghost rest: set<Node>)
    returns (aux': seq<Node?>, ghost filed': set<Node>)
    requires Forest(filed + rest + {tree}, nodes) && tree !in filed + rest && filed !! rest
    requires Table(aux, filed) && nodes != {} && |aux| == Log2(|nodes|) + 2
    modifies nodes
    ensures Forest(filed' + rest, nodes) && filed' !! rest
    ensures Table(aux', filed') && |aux'| == |aux|
  {
    hide Forest, Log2, Table;
    var x: Node, d: nat := tree, tree.degree;
    aux', filed' := aux, filed;
    DegreeBound(x, filed' + rest + {x}, nodes);
    while aux'[d] != null
      invariant x !in filed' + rest && filed' !! rest && d == x.degree < |aux'| == |aux|
      invariant Table(aux', filed')
      invariant Forest(filed' + rest + {x}, nodes)
      decreases |filed'|
    {
      var y: Node := aux'[d];
      TableTake(aux', filed', y, d);
      Regroup(filed', rest, y, x);
      filed' := filed' - {y};
      x := LinkPair(x, y, filed' + rest, nodes, aux'[d := null], filed');
      aux' := aux'[d := null];
      d := d + 1;
      DegreeBound(x, filed' + rest + {x}, nodes);
    }
    TablePut(aux', filed', x);
    Regroup(filed' + {x}, rest, x, x);
    aux' := aux'[d := x];
    filed' := filed' + {x};
  }

  lemma Regroup<T>(filed: set<T>, rest: set<T>, y: T, x: T)
    requires filed !! rest && y in filed
    ensures y !in filed - {y} + rest && filed - {y} !! rest
    ensures filed + rest + {x} == filed - {y} + rest + {x, y}
    ensures x == y ==> filed + rest == filed - {y} + rest + {y}
  {
  }

  lemma LinkFrame(x: Node, live: set<Node>, nodes: set<Node>)
    requires Forest(live, nodes) && x in live
    ensures x in nodes && forall k: Node :: k in x.kids ==> k in nodes
  {
    LiveWithin(live, nodes);
    TreeAt(x, nodes);
  }

  lemma EmptyHeap(live: set<Node>, nodes: set<Node>)
    requires Forest(live, nodes)
    ensures live == {} <==> nodes == {}
    ensures nodes == {} <==> Contents(nodes) == multiset{}
  {
    if nodes != {} {
      var n: Node :| n in nodes;
      assert InSome(n, Subs(live));
      var r: Node :| r in Subs(live);
      assert r in live;
    }
    if live != {} {
      var r: Node :| r in live;
      assert r in Subs(live);
    }
  }

  /** A node fresh from insert is a tree by itself. */
  lemma SingleTree(node: Node)
    requires node.child == null && node.degree == 0 && node.kids == [] && node.sub == {node}
    ensures node.Ring() && node.Binomial()
  {
  }

  lemma SingleApart(node: Node, live: set<Node>, nodes: set<Node>)
    requires Apart(Subs(live), nodes) && node !in nodes && node.sub == {node}
    ensures Apart(Subs(live + {node}), nodes + {node})
  {
    var subs, subs' := Subs(live), Subs(live + {node});
    assert subs' == subs[node := {node}];
  }

  lemma SingleCovered(node: Node, live: set<Node>, nodes: set<Node>)
    requires Covered(Subs(live), nodes) && node.sub == {node}
    ensures Covered(Subs(live + {node}), nodes + {node})
  {
    var subs, subs' := Subs(live), Subs(live + {node});
    forall n: Node | n in nodes + {node}
      ensures InSome(n, subs')
    {
      if n in nodes {
        assert InSome(n, subs);
        var r: Node :| r in subs && n in subs[r];
        assert r in subs' && n in subs'[r];
      } else {
        assert node in subs' && n in subs'[node];
      }
    }
  }

  lemma SinglePlanted(node: Node, live: set<Node>, nodes: set<Node>)
    requires Forest(live, nodes) && node !in nodes
    requires node.parent == null && node.child == null && node.degree == 0 && node.kids == [] && node.sub == {node}
    ensures Forest(live + {node}, nodes + {node})
  {
    hide Covered, Apart, Node.Ring, Node.Binomial;
    SingleTree(node);
    SingleApart(node, live, nodes);
    SingleCovered(node, live, nodes);
  }
}
