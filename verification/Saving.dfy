/** SaveVersion: node keys for new nodes, the records written, and the history they extend. */
module Saving {
  import opened Base
  import opened Trees
  import opened Update
  import opened Store
  import opened Layout

  /** A tree with node keys, and the last nonce given out. */
  datatype Assigned = Assigned(node: Node, nonce: int)

  /** `recursiveAssignKey`: parents before children, left before right; persisted subtrees are left alone. */
  function AssignKeys(t: Node, version: int, nonce: int): (a: Assigned)
    ensures Linked(a.node) || (t.nk.Some? && a.node == t)
  {
    if t.nk.Some? then Assigned(t, nonce)
    else
      var nk := Some(NodeKey(version, nonce + 1));
      if t.Leaf? then Assigned(Leaf(nk, t.key, t.value), nonce + 1)
      else
        var l := AssignKeys(t.left, version, nonce + 1);
        var r := AssignKeys(t.right, version, l.nonce);
        Assigned(Inner(nk, t.key, t.height, t.size, l.node, r.node), r.nonce)
  }

  predicate AllLinked(nodes: seq<Node>) {
    forall i :: 0 <= i < |nodes| ==> Linked(nodes[i])
  }

  /** The new nodes in the order they are written: children before parents. */
  function NewNodes(t: Node, version: int, nonce: int): (nodes: seq<Node>)
    ensures AllLinked(nodes)
  {
    if t.nk.Some? then []
    else
      var self := [AssignKeys(t, version, nonce).node];
      if t.Leaf? then self
      else
        var l := AssignKeys(t.left, version, nonce + 1);
        NewNodes(t.left, version, nonce + 1) + NewNodes(t.right, version, l.nonce) + self
  }

  /** What may be reused from the last saved tree after a change: an inner root never is. */
  function Reusable(saved: Option<Node>): set<Node> {
    if saved.None? then {} else if saved.value.Leaf? then {saved.value} else ProperNodes(saved.value)
  }

  /** Nodes fit to be reused by a tree of a later version. */
  ghost predicate GoodBase(base: set<Node>, version: int) {
    && Closed(base)
    && (forall x {:trigger x in base} :: x in base ==>
          Saved(x) && WellKeyed(x) && KeyOf(x).version < version && (x.Inner? ==> KeyOf(x).nonce >= 2))
  }

  /** A new node of a version, with a nonce in the given range. */
  predicate NewIn(x: Node, version: int, lo: int, hi: int) {
    x.nk.Some? && KeyOf(x).version == version && lo < KeyOf(x).nonce <= hi
  }

  lemma {:induction false} KeptNodes(t: Node, base: set<Node>)
    requires t in base && Closed(base)
    ensures Nodes(t) <= base
  {
    if t.Inner? {
      KeptNodes(t.left, base);
      KeptNodes(t.right, base);
    }
  }

  /** Assigning keys changes neither the shape nor the contents. */
  lemma {:induction false} AssignKeepsTree(t: Node, version: int, nonce: int)
    ensures var a := AssignKeys(t, version, nonce).node;
      && Height(a) == Height(t) && Size(a) == Size(t) && MinKey(a) == MinKey(t) && MaxKey(a) == MaxKey(t)
      && a.Leaf? == t.Leaf? && Model(a) == Model(t) && (Avl(t) ==> Avl(a))
  {
    if t.nk.None? && t.Inner? {
      AssignKeepsTree(t.left, version, nonce + 1);
      AssignKeepsTree(t.right, version, AssignKeys(t.left, version, nonce + 1).nonce);
    }
  }

  /** The result is fully keyed, versions do not grow downwards, and nonces only grow. */
  lemma {:induction false} AssignedKeys(t: Node, version: int, nonce: int, base: set<Node>)
    requires KeptFrom(t, base) && GoodBase(base, version) && nonce >= 0
    ensures var a := AssignKeys(t, version, nonce);
      && nonce <= a.nonce && Saved(a.node) && WellKeyed(a.node) && KeyOf(a.node).version <= version
      && (t.nk.None? ==> KeyOf(a.node) == NodeKey(version, nonce + 1) && nonce + 1 <= a.nonce)
      && (t.nk.Some? ==> a.node == t && t in base)
  {
    if t.nk.None? && t.Inner? {
      var l := AssignKeys(t.left, version, nonce + 1);
      AssignedKeys(t.left, version, nonce + 1, base);
      AssignedKeys(t.right, version, l.nonce, base);
    }
  }

  lemma {:induction false} AssignedGrows(t: Node, version: int, nonce: int)
    ensures var a := AssignKeys(t, version, nonce);
      && nonce <= a.nonce && a.node.nk.Some?
      && (t.nk.None? ==> KeyOf(a.node) == NodeKey(version, nonce + 1) && nonce + 1 <= a.nonce)
  {
    if t.nk.None? && t.Inner? {
      AssignedGrows(t.left, version, nonce + 1);
      AssignedGrows(t.right, version, AssignKeys(t.left, version, nonce + 1).nonce);
    }
  }

  /** A new inner node: its own nonce, then those of the left subtree, then those of the right one. */
  lemma {:induction false} AssignedParts(t: Node, version: int, nonce: int)
    returns (l: Assigned, r: Assigned, a: Assigned)
    requires t.nk.None? && t.Inner?
    ensures l == AssignKeys(t.left, version, nonce + 1) && r == AssignKeys(t.right, version, l.nonce)
    ensures a == AssignKeys(t, version, nonce) && a.nonce == r.nonce && nonce + 1 <= l.nonce <= r.nonce
    ensures a.node.nk == Some(NodeKey(version, nonce + 1)) && Nodes(a.node) == {a.node} + Nodes(l.node) + Nodes(r.node)
  {
    l := AssignKeys(t.left, version, nonce + 1);
    r := AssignKeys(t.right, version, l.nonce);
    a := AssignKeys(t, version, nonce);
    AssignedGrows(t.left, version, nonce + 1);
    AssignedGrows(t.right, version, l.nonce);
  }

  /** Every node of the result was reused or is new. */
  lemma {:induction false} AssignedNode(t: Node, version: int, nonce: int, base: set<Node>, x: Node)
    requires KeptFrom(t, base) && Closed(base) && x in Nodes(AssignKeys(t, version, nonce).node)
    ensures x in base || NewIn(x, version, nonce, AssignKeys(t, version, nonce).nonce)
  {
    if t.nk.Some? {
      KeptNodes(t, base);
    } else if t.Inner? {
      var l, r, a := AssignedParts(t, version, nonce);
      if x in Nodes(l.node) {
        AssignedNode(t.left, version, nonce + 1, base, x);
      } else if x in Nodes(r.node) {
        AssignedNode(t.right, version, l.nonce, base, x);
      }
    }
  }

  /** Where a new node below a new inner node is, read off its nonce. */
  lemma {:induction false} AssignedSide(t: Node, version: int, nonce: int, base: set<Node>, x: Node, l: Assigned,
                                        r: Assigned)
    requires t.nk.None? && t.Inner? && KeptFrom(t, base) && Closed(base) && x !in base
    requires l == AssignKeys(t.left, version, nonce + 1) && r == AssignKeys(t.right, version, l.nonce)
    requires x in Nodes(l.node) || x in Nodes(r.node)
    ensures x.nk.Some? && KeyOf(x).nonce > nonce + 1
    ensures x in Nodes(l.node) <==> KeyOf(x).nonce <= l.nonce
    ensures x in Nodes(r.node) <==> KeyOf(x).nonce > l.nonce
  {
    AssignedGrows(t.left, version, nonce + 1);
    if x in Nodes(l.node) {
      AssignedNode(t.left, version, nonce + 1, base, x);
    }
    if x in Nodes(r.node) {
      AssignedNode(t.right, version, l.nonce, base, x);
    }
  }

  /** No nonce is given out twice. */
  lemma {:induction false} AssignedOnce(t: Node, version: int, nonce: int, base: set<Node>, x: Node, y: Node)
    requires KeptFrom(t, base) && Closed(base)
    requires x in Nodes(AssignKeys(t, version, nonce).node) && y in Nodes(AssignKeys(t, version, nonce).node)
    requires x !in base && y !in base && x.nk == y.nk
    ensures x == y
  {
    if t.nk.Some? {
      KeptNodes(t, base);
    } else if t.Inner? {
      var l, r, a := AssignedParts(t, version, nonce);
      if x != a.node {
        AssignedSide(t, version, nonce, base, x, l, r);
      }
      if y != a.node {
        AssignedSide(t, version, nonce, base, y, l, r);
      }
      if x != a.node && y != a.node {
        if x in Nodes(l.node) {
          AssignedOnce(t.left, version, nonce + 1, base, x, y);
        } else {
          AssignedOnce(t.right, version, l.nonce, base, x, y);
        }
      }
    }
  }

  lemma {:induction false} AssignedDistinct(t: Node, version: int, base: set<Node>)
    requires KeptFrom(t, base) && GoodBase(base, version) && DistinctKeys(base)
    ensures DistinctKeys(Nodes(AssignKeys(t, version, 0).node))
  {
    var s := Nodes(AssignKeys(t, version, 0).node);
    forall x, y {:trigger x in s, y in s} | x in s && y in s && x.nk == y.nk ensures x == y {
      AssignedNode(t, version, 0, base, x);
      AssignedNode(t, version, 0, base, y);
      if x !in base && y !in base {
        AssignedOnce(t, version, 0, base, x, y);
      }
    }
  }

  /** The new nodes of a new inner node. */
  lemma {:induction false} NewNodesParts(t: Node, version: int, nonce: int, l: Assigned, a: Assigned)
    requires t.nk.None? && t.Inner? && l == AssignKeys(t.left, version, nonce + 1) && a == AssignKeys(t, version, nonce)
    ensures NewNodes(t, version, nonce) ==
      NewNodes(t.left, version, nonce + 1) + NewNodes(t.right, version, l.nonce) + [a.node]
  {
  }

  lemma {:induction false} NewNodesAreNew(t: Node, version: int, nonce: int, base: set<Node>, x: Node)
    requires KeptFrom(t, base) && GoodBase(base, version)
    ensures x in NewNodes(t, version, nonce) <==> x in Nodes(AssignKeys(t, version, nonce).node) && x !in base
  {
    if t.nk.Some? {
      KeptNodes(t, base);
    } else if t.Inner? {
      var l, r, a := AssignedParts(t, version, nonce);
      NewNodesParts(t, version, nonce, l, a);
      NewNodesAreNew(t.left, version, nonce + 1, base, x);
      NewNodesAreNew(t.right, version, l.nonce, base, x);
    }
  }

  // ----- The records written by a save -----

  function PutAll(nodes: seq<Node>): seq<BatchOp>
    requires AllLinked(nodes)
  {
    if nodes == [] then []
    else PutAll(nodes[..|nodes| - 1]) + [Put(KeyOf(nodes[|nodes| - 1]), Stored(RecordOf(nodes[|nodes| - 1])))]
  }

  /** Whatever the nodes, each key written is the key of one of them and holds its record. */
  lemma {:induction false} PutAllKeys(db: Db, nodes: seq<Node>, k: NodeKey)
    requires AllLinked(nodes)
    ensures var db' := Apply(db, PutAll(nodes));
      && (k in db ==> k in db')
      && (k in db' ==>
            (k in db && db'[k] == db[k]) || exists x {:trigger x in nodes} ::
              x in nodes && Linked(x) && KeyOf(x) == k && db'[k] == Stored(RecordOf(x)))
  {
    if nodes != [] {
      var front, last := nodes[..|nodes| - 1], nodes[|nodes| - 1];
      PutAllKeys(db, front, k);
      ApplyOne(db, PutAll(front), Put(KeyOf(last), Stored(RecordOf(last))));
      assert last in nodes;
      var d := Apply(db, PutAll(front));
      if k in d && !(k in db && d[k] == db[k]) {
        var x :| x in front && Linked(x) && KeyOf(x) == k && d[k] == Stored(RecordOf(x));
        assert x in nodes;
      }
    }
  }

  lemma {:induction false} PutAllPresent(db: Db, nodes: seq<Node>, x: Node)
    requires AllLinked(nodes) && x in nodes
    ensures Linked(x) && KeyOf(x) in Apply(db, PutAll(nodes))
  {
    var front, last := nodes[..|nodes| - 1], nodes[|nodes| - 1];
    ApplyOne(db, PutAll(front), Put(KeyOf(last), Stored(RecordOf(last))));
    if x != last {
      PutAllPresent(db, front, x);
    }
  }

  /** Writing nodes with distinct new keys stores each of them. */
  lemma {:induction false} PutAllStores(db: Db, nodes: seq<Node>, x: Node)
    requires AllLinked(nodes) && x in nodes && x.nk.Some? && KeyOf(x) !in db
    requires forall y {:trigger y in nodes} :: y in nodes && x.nk == y.nk ==> x == y
    ensures Linked(x)
    ensures var db' := Apply(db, PutAll(nodes)); KeyOf(x) in db' && db'[KeyOf(x)] == Stored(RecordOf(x))
  {
    PutAllPresent(db, nodes, x);
    PutAllKeys(db, nodes, KeyOf(x));
  }

  /** The tree in memory after a save. */
  function SavedRoot(root: Option<Node>, version: int): Option<Node> {
    if root.None? || root.value.nk.Some? then root else Some(AssignKeys(root.value, version, 0).node)
  }

  /** What SaveVersion writes: the empty root, a reference to an unchanged root, or the new nodes. */
  function SaveOps(root: Option<Node>, version: int): seq<BatchOp> {
    if root.None? then [Put(RootKey(version), EmptyRoot)]
    else if root.value.nk.Some? then [Put(RootKey(version), Reference(KeyOf(root.value)))]
    else PutAll(NewNodes(root.value, version, 0))
  }

  // ----- Extending the history -----

  function Last(h: History): Option<Node> {
    if h.lo <= h.hi && h.hi in h.roots then h.roots[h.hi] else None
  }

  function Extend(h: History, r: Option<Node>): History {
    History(h.lo, h.hi + 1, h.roots[h.hi + 1 := r])
  }

  lemma {:induction false} SpanExtends(h: History, r: Option<Node>, v: int)
    requires Complete(h) && h.lo <= v <= h.hi + 1
    ensures Complete(Extend(h, r))
    ensures Span(Extend(h, r), v) == Span(h, v) + RootNodes(r)
    decreases h.hi - v
  {
    var h' := Extend(h, r);
    assert Complete(h');
    if v <= h.hi {
      SpanExtends(h, r, v + 1);
    } else {
      assert Span(h', v + 1) == {};
    }
  }

  lemma {:induction false} ExtendGood(h: History, r: Option<Node>)
    requires GoodHistory(h) && h.lo <= h.hi + 1
    requires GoodRoot(r, h.hi + 1) && CopyOnWrite(Last(h), r, h.hi)
    ensures GoodHistory(Extend(h, r))
  {
    var h' := Extend(h, r);
    assert Complete(h');
    forall v {:trigger GoodVersion(h', v)} | InSpan(h', v) ensures GoodVersion(h', v) {
      if v <= h.hi {
        assert GoodVersion(h, v);
      }
    }
  }

  ghost function KeysAt(r: Option<Node>, lo: int): set<NodeKey> {
    Places(RootNodes(r), lo)
  }

  lemma {:induction false} ExtendKeys(h: History, r: Option<Node>)
    requires Complete(h) && h.lo <= h.hi + 1
    ensures Complete(Extend(h, r))
    ensures RootKeys(Extend(h, r), h.lo) == RootKeys(h, h.lo) + {RootKey(h.hi + 1)}
    ensures NodeKeys(Extend(h, r), h.lo) == NodeKeys(h, h.lo) + KeysAt(r, h.lo)
  {
    SpanExtends(h, r, h.lo);
    var h' := Extend(h, r);
    forall k ensures k in RootKeys(h', h.lo) <==> k in RootKeys(h, h.lo) + {RootKey(h.hi + 1)} {
      if k == RootKey(h.hi + 1) {
        assert h.lo <= h.hi + 1 <= h'.hi;
      }
    }
  }

  lemma {:induction false} Interleave(a: set<NodeKey>, b: set<NodeKey>, c: set<NodeKey>, d: set<NodeKey>)
    ensures (a + b) + c + d == (a + c) + (b + d)
  {
  }

  lemma {:induction false} NodesStayHeld(db: Db, h: History, db': Db, r: Option<Node>, x: Node)
    requires Holds(db, h, h.lo) && h.lo <= h.hi + 1
    requires forall k :: k in db ==> k in db' && db'[k] == db[k]
    requires forall y {:trigger y in RootNodes(r)} :: y in RootNodes(r) ==> HoldsNode(db', y, h.lo)
    requires x in Span(h, h.lo) + RootNodes(r)
    ensures HoldsNode(db', x, h.lo)
  {
    if x in Span(h, h.lo) {
      assert HoldsNode(db, x, h.lo);
    }
  }

  lemma {:induction false} RootsStayHeld(db: Db, h: History, db': Db, v: int)
    requires Holds(db, h, h.lo) && h.lo <= v <= h.hi
    requires forall k :: k in db ==> k in db' && db'[k] == db[k]
    ensures HoldsRoot(db', h.roots[v], v, h.lo)
  {
    assert HoldsRoot(db, h.roots[v], v, h.lo);
  }

  /** A save that adds the nodes of `r` which were not stored yet, and a root record for it, extends the store. */
  lemma {:induction false} StoreExtends(db: Db, h: History, db': Db, r: Option<Node>)
    requires Holds(db, h, h.lo) && h.lo <= h.hi + 1
    requires GoodRoot(r, h.hi + 1) && CopyOnWrite(Last(h), r, h.hi)
    requires db'.Keys == db.Keys + {RootKey(h.hi + 1)} + KeysAt(r, h.lo)
    requires forall k :: k in db ==> k in db' && db'[k] == db[k]
    requires forall x {:trigger x in RootNodes(r)} :: x in RootNodes(r) ==> HoldsNode(db', x, h.lo)
    requires HoldsRoot(db', r, h.hi + 1, h.lo)
    ensures Holds(db', Extend(h, r), h.lo)
  {
    var h' := Extend(h, r);
    SpanExtends(h, r, h.lo);
    ExtendGood(h, r);
    ExtendKeys(h, r);
    Interleave(RootKeys(h, h.lo), NodeKeys(h, h.lo), {RootKey(h.hi + 1)}, KeysAt(r, h.lo));
    forall x {:trigger HoldsNode(db', x, h.lo)} | x in Span(h', h.lo) ensures HoldsNode(db', x, h.lo) {
      NodesStayHeld(db, h, db', r, x);
    }
    forall v {:trigger HoldsRoot(db', h'.roots[v], v, h.lo)} | h.lo <= v <= h'.hi
      ensures HoldsRoot(db', h'.roots[v], v, h.lo)
    {
      if v <= h.hi {
        RootsStayHeld(db, h, db', v);
      }
    }
  }

  // ----- SaveVersion against the history -----

  /** The history names a moved root by the key it was saved under. */
  function Canon(r: Option<Node>): Option<Node> {
    if r.Some? && r.value.nk.Some? && KeyOf(r.value).nonce == 0
    then Some(Rekey(r.value, NodeKey(KeyOf(r.value).version, 1))) else r
  }

  /** The tree in memory is a saved root, possibly as read back after the root was moved. */
  ghost predicate Mirrors(m: Option<Node>, saved: Option<Node>, lo: int) {
    m == saved || (saved.Some? && saved.value.nk.Some? && m == AtRoot(saved, lo))
  }

  /** The working tree is the last saved tree, or was derived from it copying on write. */
  ghost predicate Derived(work: Option<Node>, m: Option<Node>) {
    work == m || (work.Some? ==> KeptFrom(work.value, Reusable(m)))
  }

  /** The working tree holds, below its root, a leaf that was the root of a version pruned since. */
  predicate ReusesMovedLeaf(work: Option<Node>, m: Option<Node>, lo: int) {
    && m.Some? && m.value.Leaf? && m.value.nk.Some? && work.Some? && work != m
    && KeyOf(m.value).version < lo && KeyOf(m.value).nonce <= 1 && m.value in Nodes(work.value)
  }

  lemma {:induction false} LastIsGood(h: History)
    requires GoodHistory(h) && Last(h).Some?
    ensures h.lo <= h.hi && Last(h) == h.roots[h.hi] && GoodRoot(Last(h), h.hi)
  {
    assert GoodVersion(h, h.hi);
  }

  lemma {:induction false} KeptWithout(t: Node, base: set<Node>, x: Node)
    requires KeptFrom(t, base) && x !in Nodes(t)
    ensures KeptFrom(t, base - {x})
  {
    if t.nk.None? && t.Inner? {
      KeptWithout(t.left, base, x);
      KeptWithout(t.right, base, x);
    }
  }

  /** What a changed working tree reuses, in terms of the history. */
  ghost function ReusedFrom(work: Node, last: Option<Node>): set<Node> {
    if last.Some? && last.value.Leaf? && last.value !in Nodes(work) then {} else Reusable(last)
  }

  lemma {:induction false} ReusableIsGood(h: History)
    requires GoodHistory(h) && h.lo <= h.hi + 1
    ensures Reusable(Last(h)) <= RootNodes(Last(h))
    ensures GoodBase(Reusable(Last(h)), h.hi + 1) && DistinctKeys(Reusable(Last(h)))
  {
    if Last(h).Some? {
      LastIsGood(h);
      var t := Last(h).value;
      forall x | x in Reusable(Last(h))
        ensures Saved(x) && WellKeyed(x) && KeyOf(x).version <= h.hi && (x.Inner? ==> KeyOf(x).nonce >= 2)
      {
        VersionsFall(t, x);
        if t.Inner? && x == t {
          NotBelowItself(t);
        }
      }
      if t.Inner? {
        ChildrenStay(t.left);
        ChildrenStay(t.right);
      }
    }
  }

  lemma {:induction false} ChildrenStay(t: Node)
    requires Saved(t)
    ensures Closed(Nodes(t))
  {
    if t.Inner? {
      ChildrenStay(t.left);
      ChildrenStay(t.right);
    }
  }

  lemma {:induction false} Smaller(t: Node, x: Node)
    requires x in Nodes(t) && x != t
    ensures x < t
  {
    if x in Nodes(t.left) {
      if x != t.left {
        Smaller(t.left, x);
      }
    } else if x != t.right {
      Smaller(t.right, x);
    }
  }

  lemma {:induction false} NotBelowItself(t: Node)
    ensures t !in ProperNodes(t)
  {
    if t.Inner? {
      if t in Nodes(t.left) && t != t.left {
        Smaller(t.left, t);
      }
      if t in Nodes(t.right) && t != t.right {
        Smaller(t.right, t);
      }
    }
  }

  lemma {:induction false} ReusedIsKept(h: History, m: Option<Node>, work: Node)
    requires GoodHistory(h) && h.lo <= h.hi + 1
    requires Mirrors(m, Last(h), h.lo) && KeptFrom(work, Reusable(m))
    requires !ReusesMovedLeaf(Some(work), m, h.lo) && work.nk.None?
    ensures KeptFrom(work, ReusedFrom(work, Last(h)))
    ensures forall x {:trigger x in ReusedFrom(work, Last(h))} ::
      x in ReusedFrom(work, Last(h)) && x.Leaf? && Last(h) == Some(x) ==> x.nk.Some? && At(x, h.lo) == KeyOf(x)
  {
    var last := Last(h);
    if last.Some? {
      LastIsGood(h);
      var t := last.value;
      if t.Leaf? {
        if m.value !in Nodes(work) {
          KeptWithout(work, Reusable(m), m.value);
          assert Reusable(m) - {m.value} == {};
          KeptMonotone(work, {}, ReusedFrom(work, last));
        }
        if t in Nodes(work) {
          KeptLeaf(work, m.value, t);
        }
      } else {
        assert Reusable(m) == Reusable(last);
      }
    }
  }

  lemma {:induction false} KeptLeaf(t: Node, leaf: Node, x: Node)
    requires leaf.Leaf? && KeptFrom(t, {leaf}) && x in Nodes(t) && x.nk.Some?
    ensures x == leaf
  {
    if t.nk.None? {
      if x in Nodes(t.left) {
        KeptLeaf(t.left, leaf, x);
      } else {
        KeptLeaf(t.right, leaf, x);
      }
    }
  }

  lemma {:induction false} KeptMonotone(t: Node, a: set<Node>, b: set<Node>)
    requires KeptFrom(t, a) && a <= b
    ensures KeptFrom(t, b)
  {
    if t.nk.None? && t.Inner? {
      KeptMonotone(t.left, a, b);
      KeptMonotone(t.right, a, b);
    }
  }

  lemma {:induction false} PutKeys(db: Db, k: NodeKey, r: Record, more: set<NodeKey>)
    requires k !in db && more <= db.Keys
    ensures var db' := db[k := r];
      db'.Keys == db.Keys + {k} + more && forall j :: j in db ==> j in db' && db'[j] == db[j]
  {
  }

  lemma {:induction false} SaveEmptyExtends(db: Db, h: History)
    requires Holds(db, h, h.lo) && h.lo <= h.hi + 1
    ensures Holds(Apply(db, SaveOps(None, h.hi + 1)), Extend(h, None), h.lo)
  {
    var v := h.hi + 1;
    RootKeyPresent(db, h, h.lo, v);
    var db' := db[RootKey(v) := EmptyRoot];
    PutKeys(db, RootKey(v), EmptyRoot, KeysAt(None, h.lo));
    StoreExtends(db, h, db', None);
    ApplyPut(db, RootKey(v), EmptyRoot);
  }

  lemma {:induction false} ApplyPut(db: Db, k: NodeKey, r: Record)
    ensures Apply(db, [Put(k, r)]) == db[k := r]
  {
    assert [Put(k, r)] == [] + [Put(k, r)];
    ApplyOne(db, [], Put(k, r));
  }

  /** An unchanged root, whether the last one or a promoted descendant, is a node of the last version. */
  lemma {:induction false} UnchangedRoot(h: History, m: Option<Node>, t: Node)
    requires GoodHistory(h) && h.lo <= h.hi + 1
    requires Mirrors(m, Last(h), h.lo) && Derived(Some(t), m) && t.nk.Some?
    ensures var r := Canon(Some(t));
      && r.Some? && r.value in RootNodes(Last(h)) && r.value.nk.Some?
      && (KeyOf(t) == KeyOf(r.value) || KeyOf(t) == At(r.value, h.lo))
  {
    LastIsGood(h);
    if Some(t) != m && t in ProperNodes(Last(h).value) {
      VersionsFall(Last(h).value, t);
    }
  }

  /** A node of the last version can be the root of the next one; all of it is stored already. */
  lemma {:induction false} PromotedRoot(db: Db, h: History, r: Node)
    requires Holds(db, h, h.lo) && r in RootNodes(Last(h))
    ensures GoodRoot(Some(r), h.hi + 1) && CopyOnWrite(Last(h), Some(r), h.hi)
    ensures forall x {:trigger x in Nodes(r)} :: x in Nodes(r) ==> HoldsNode(db, x, h.lo) && KeyOf(x).version <= h.hi
  {
    LastIsGood(h);
    var last := Last(h).value;
    VersionsFall(last, r);
    NodesAreAvl(last, r);
    NodesOfNodes(last, r);
    forall x {:trigger x in Nodes(r)} | x in Nodes(r) ensures HoldsNode(db, x, h.lo) && KeyOf(x).version <= h.hi {
      SpanContains(h, h.lo, h.hi, x);
      VersionsFall(last, x);
    }
  }

  /** Writing a reference to it makes it the next version. */
  lemma {:induction false} ReferenceExtends(db: Db, h: History, r: Node, nk: NodeKey)
    requires Holds(db, h, h.lo) && h.lo <= h.hi + 1
    requires GoodRoot(Some(r), h.hi + 1) && CopyOnWrite(Last(h), Some(r), h.hi)
    requires forall x {:trigger x in Nodes(r)} :: x in Nodes(r) ==> HoldsNode(db, x, h.lo) && KeyOf(x).version <= h.hi
    requires nk == KeyOf(r) || nk == At(r, h.lo)
    ensures Holds(db[RootKey(h.hi + 1) := Reference(nk)], Extend(h, Some(r)), h.lo)
  {
    var v := h.hi + 1;
    var db' := db[RootKey(v) := Reference(nk)];
    RootKeyPresent(db, h, h.lo, v);
    forall x {:trigger x in Nodes(r)} | x in Nodes(r) ensures HoldsNode(db', x, h.lo) {
      assert HoldsNode(db, x, h.lo);
    }
    forall k | k in KeysAt(Some(r), h.lo) ensures k in db {
      var x := PlaceOf(Nodes(r), h.lo, k);
      assert HoldsNode(db, x, h.lo);
    }
    PutKeys(db, RootKey(v), Reference(nk), KeysAt(Some(r), h.lo));
    assert r in Nodes(r);
    StoreExtends(db, h, db', Some(r));
  }

  lemma {:induction false} SaveUnchangedExtends(db: Db, h: History, m: Option<Node>, t: Node)
    requires Holds(db, h, h.lo) && h.lo <= h.hi + 1
    requires Mirrors(m, Last(h), h.lo) && Derived(Some(t), m) && t.nk.Some?
    ensures Holds(Apply(db, SaveOps(Some(t), h.hi + 1)), Extend(h, Canon(Some(t))), h.lo)
  {
    var v := h.hi + 1;
    UnchangedRoot(h, m, t);
    PromotedRoot(db, h, Canon(Some(t)).value);
    ReferenceExtends(db, h, Canon(Some(t)).value, KeyOf(t));
    ApplyPut(db, RootKey(v), Reference(KeyOf(t)));
  }

  lemma {:induction false} NewRootIsGood(h: History, t: Node)
    requires GoodHistory(h) && h.lo <= h.hi + 1 && Avl(t) && t.nk.None?
    requires KeptFrom(t, ReusedFrom(t, Last(h)))
    ensures var base, a := ReusedFrom(t, Last(h)), AssignKeys(t, h.hi + 1, 0).node;
      && GoodBase(base, h.hi + 1) && base <= RootNodes(Last(h))
      && GoodRoot(Some(a), h.hi + 1) && KeyOf(a) == RootKey(h.hi + 1)
      && CopyOnWrite(Last(h), Some(a), h.hi)
  {
    var v, base := h.hi + 1, ReusedFrom(t, Last(h));
    var a := AssignKeys(t, v, 0).node;
    ReusableIsGood(h);
    AssignedKeys(t, v, 0, base);
    AssignKeepsTree(t, v, 0);
    AssignedDistinct(t, v, base);
    forall x {:trigger x in Nodes(a)} | x in Nodes(a) && x.nk.Some? && KeyOf(x).version <= h.hi
      ensures x in RootNodes(Last(h))
    {
      AssignedNode(t, v, 0, base, x);
    }
  }

  /** The written nodes are the nodes of the new tree that carry the new version; the rest is reused. */
  ghost predicate Splits(a: Node, added: seq<Node>, base: set<Node>, v: int) {
    && AllLinked(added)
    && (forall x {:trigger x in added} :: x in added ==>
          x in Nodes(a) && Saved(x) && KeyOf(x).version == v && KeyOf(x).nonce >= 1)
    && (forall x {:trigger x in Nodes(a)} :: x in Nodes(a) ==> x in added || x in base)
  }

  lemma {:induction false} NewNodesSplit(h: History, t: Node)
    requires GoodHistory(h) && h.lo <= h.hi + 1 && Avl(t) && t.nk.None?
    requires KeptFrom(t, ReusedFrom(t, Last(h)))
    ensures Splits(AssignKeys(t, h.hi + 1, 0).node, NewNodes(t, h.hi + 1, 0), ReusedFrom(t, Last(h)), h.hi + 1)
    ensures AssignKeys(t, h.hi + 1, 0).node in NewNodes(t, h.hi + 1, 0)
  {
    var v, base := h.hi + 1, ReusedFrom(t, Last(h));
    var a, added := AssignKeys(t, v, 0).node, NewNodes(t, v, 0);
    NewRootIsGood(h, t);
    forall x {:trigger x in added} | x in added
      ensures x in Nodes(a) && Saved(x) && KeyOf(x).version == v && KeyOf(x).nonce >= 1
    {
      NewNodesAreNew(t, v, 0, base, x);
      AssignedNode(t, v, 0, base, x);
      VersionsFall(a, x);
    }
    forall x {:trigger x in Nodes(a)} | x in Nodes(a) ensures x in added || x in base {
      NewNodesAreNew(t, v, 0, base, x);
    }
  }

  /** The new nodes `added` of a tree `a` are about to be written to a store that holds the rest of it. */
  ghost predicate Adding(db: Db, h: History, a: Node, added: seq<Node>, base: set<Node>) {
    && Holds(db, h, h.lo) && h.lo <= h.hi + 1
    && Splits(a, added, base, h.hi + 1) && DistinctKeys(Nodes(a)) && base <= RootNodes(Last(h))
    && a in added && KeyOf(a) == RootKey(h.hi + 1)
  }

  lemma {:induction false} AddedNodeHeld(db: Db, h: History, a: Node, added: seq<Node>, base: set<Node>, x: Node)
    requires Adding(db, h, a, added, base) && x in Nodes(a)
    ensures HoldsNode(Apply(db, PutAll(added)), x, h.lo)
  {
    if x in added {
      AddedIsNew(db, h, x);
      PutAllStores(db, added, x);
    } else {
      SpanContains(h, h.lo, h.hi, x);
      assert HoldsNode(db, x, h.lo);
      var k := At(x, h.lo);
      StoredVersions(db, h, k);
      PutAllKeys(db, added, k);
    }
  }

  lemma {:induction false} AddedKeepsStore(db: Db, h: History, a: Node, added: seq<Node>, base: set<Node>, k: NodeKey)
    requires Adding(db, h, a, added, base)
    ensures var db' := Apply(db, PutAll(added));
      && (k in db ==> k in db' && db'[k] == db[k])
      && (k in db' && k !in db ==> k in KeysAt(Some(a), h.lo))
  {
    PutAllKeys(db, added, k);
    var db' := Apply(db, PutAll(added));
    if k in db {
      StoredVersions(db, h, k);
    } else if k in db' {
      var x :| x in added && Linked(x) && KeyOf(x) == k;
      assert x in RootNodes(Some(a)) && At(x, h.lo) == k;
    }
  }

  lemma {:induction false} UnionOf(a: set<NodeKey>, k: NodeKey, b: set<NodeKey>, c: set<NodeKey>)
    requires a <= c && b <= c && k in b && forall j :: j in c && j !in a ==> j in b
    ensures c == a + {k} + b
  {
  }

  /** Writing the new nodes of a tree whose other nodes are stored stores the tree. */
  lemma {:induction false} AddedNodesStored(db: Db, h: History, a: Node, added: seq<Node>, base: set<Node>)
    requires Adding(db, h, a, added, base)
    ensures var db' := Apply(db, PutAll(added));
      && db'.Keys == db.Keys + {RootKey(h.hi + 1)} + KeysAt(Some(a), h.lo)
      && (forall k :: k in db ==> k in db' && db'[k] == db[k])
      && (forall x {:trigger x in Nodes(a)} :: x in Nodes(a) ==> HoldsNode(db', x, h.lo))
  {
    var db' := Apply(db, PutAll(added));
    forall k
      ensures (k in db ==> k in db' && db'[k] == db[k]) && (k in db' && k !in db ==> k in KeysAt(Some(a), h.lo))
    {
      AddedKeepsStore(db, h, a, added, base, k);
    }
    forall x {:trigger x in Nodes(a)} | x in Nodes(a) ensures HoldsNode(db', x, h.lo) {
      AddedNodeHeld(db, h, a, added, base, x);
    }
    forall k | k in KeysAt(Some(a), h.lo) ensures k in db' {
      var x := PlaceOf(Nodes(a), h.lo, k);
      assert HoldsNode(db', x, h.lo);
    }
    assert a in RootNodes(Some(a)) && At(a, h.lo) == RootKey(h.hi + 1);
    UnionOf(db.Keys, RootKey(h.hi + 1), KeysAt(Some(a), h.lo), db'.Keys);
  }

  lemma {:induction false} AddedIsNew(db: Db, h: History, x: Node)
    requires Holds(db, h, h.lo) && x.nk.Some? && KeyOf(x).version == h.hi + 1
    ensures KeyOf(x) !in db
  {
    if KeyOf(x) in db {
      StoredVersions(db, h, KeyOf(x));
    }
  }

  lemma {:induction false} SaveNewExtends(db: Db, h: History, t: Node)
    requires Holds(db, h, h.lo) && h.lo <= h.hi + 1 && Avl(t) && t.nk.None?
    requires KeptFrom(t, ReusedFrom(t, Last(h)))
    ensures Saved(AssignKeys(t, h.hi + 1, 0).node)
    ensures Holds(Apply(db, SaveOps(Some(t), h.hi + 1)), Extend(h, Some(AssignKeys(t, h.hi + 1, 0).node)), h.lo)
  {
    var v := h.hi + 1;
    var a, added := AssignKeys(t, v, 0).node, NewNodes(t, v, 0);
    NewRootIsGood(h, t);
    NewNodesSplit(h, t);
    AddedNodesStored(db, h, a, added, ReusedFrom(t, Last(h)));
    StoreExtends(db, h, Apply(db, PutAll(added)), Some(a));
  }

  /** Every key of the store belongs to a version up to the latest. */
  lemma {:induction false} StoredVersions(db: Db, h: History, k: NodeKey)
    requires Holds(db, h, h.lo) && k in db
    ensures k.version <= h.hi
  {
    if k in NodeKeys(h, h.lo) {
      var x := PlaceOf(Span(h, h.lo), h.lo, k);
      var w := SpanNode(h, h.lo, x);
    }
  }

  // ----- When a save reads back -----

  lemma {:induction false} AssignSaves(t: Node, version: int, nonce: int, base: set<Node>)
    requires KeptFrom(t, base) && forall x {:trigger x in base} :: x in base ==> Saved(x)
    ensures Saved(AssignKeys(t, version, nonce).node)
  {
    if t.nk.None? && t.Inner? {
      AssignSaves(t.left, version, nonce + 1, base);
      AssignSaves(t.right, version, AssignKeys(t.left, version, nonce + 1).nonce, base);
    }
  }

  lemma {:induction false} AssignReuses(t: Node, version: int, nonce: int, x: Node)
    requires x in Nodes(t) && x.nk.Some?
    ensures x in Nodes(AssignKeys(t, version, nonce).node)
  {
    if t.nk.None? {
      if x in Nodes(t.left) {
        AssignReuses(t.left, version, nonce + 1, x);
      } else {
        AssignReuses(t.right, version, AssignKeys(t.left, version, nonce + 1).nonce, x);
      }
    }
  }

  lemma {:induction false} NewNodesVersion(t: Node, version: int, nonce: int, x: Node)
    requires x in NewNodes(t, version, nonce)
    ensures x.nk.Some? && KeyOf(x).version == version
  {
    if t.Inner? {
      var l := AssignKeys(t.left, version, nonce + 1);
      if x in NewNodes(t.left, version, nonce + 1) {
        NewNodesVersion(t.left, version, nonce + 1, x);
      } else if x in NewNodes(t.right, version, l.nonce) {
        NewNodesVersion(t.right, version, l.nonce, x);
      }
    }
  }

  lemma {:induction false} HeldLinks(db: Db, h: History, k: NodeKey)
    requires Holds(db, h, h.lo) && k in db
    ensures NoZeroLinks(db[k])
  {
    if k in NodeKeys(h, h.lo) {
      var x := PlaceOf(Span(h, h.lo), h.lo, k);
      assert HoldsNode(db, x, h.lo);
    } else {
      assert HoldsRoot(db, h.roots[k.version], k.version, h.lo);
      if db[k].Stored? {
        RootFound(db, h, h.lo, k.version);
        SpanContains(h, h.lo, k.version, h.roots[k.version].value);
      }
    }
  }

  /** A reused leaf whose version was pruned makes the new version unreadable. */
  lemma {:induction false} MovedLeafBreaksSave(db: Db, h: History, m: Option<Node>, t: Node)
    requires Holds(db, h, h.lo) && h.lo <= h.hi + 1 && t.nk.None?
    requires ReusesMovedLeaf(Some(t), m, h.lo)
    requires Saved(AssignKeys(t, h.hi + 1, 0).node)
    ensures var a := AssignKeys(t, h.hi + 1, 0).node;
      ReadTree(Apply(db, SaveOps(Some(t), h.hi + 1)), KeyOf(a)) != Some(a)
  {
    var v, leaf := h.hi + 1, m.value;
    var a, added := AssignKeys(t, v, 0).node, NewNodes(t, v, 0);
    var db' := Apply(db, PutAll(added));
    AssignReuses(t, v, 0, leaf);
    if ReadTree(db', KeyOf(a)) == Some(a) {
      ReadKeysPresent(db', KeyOf(a), leaf);
      PutAllKeys(db, added, KeyOf(leaf));
      if KeyOf(leaf) !in db {
        var x :| x in added && KeyOf(x) == KeyOf(leaf);
        NewNodesVersion(t, v, 0, x);
      } else if KeyOf(leaf).nonce == 1 {
        RootKeyPresent(db, h, h.lo, KeyOf(leaf).version);
      } else if KeyOf(leaf).nonce == 0 {
        forall k | k in db' ensures NoZeroLinks(db'[k]) {
          PutAllKeys(db, added, k);
          if k in db {
            HeldLinks(db, h, k);
          }
        }
        ReadNonces(db', KeyOf(a), leaf);
      } else {
        StoredNonces(db, h, KeyOf(leaf));
      }
    }
  }

  lemma {:induction false} StoredNonces(db: Db, h: History, k: NodeKey)
    requires Holds(db, h, h.lo) && k in db
    ensures k.nonce >= 0
  {
    if k in NodeKeys(h, h.lo) {
      var x := PlaceOf(Span(h, h.lo), h.lo, k);
      var w := SpanNode(h, h.lo, x);
    }
  }

  lemma {:induction false} DerivedSaves(h: History, m: Option<Node>, work: Option<Node>, v: int)
    requires GoodHistory(h) && h.lo <= h.hi + 1
    requires Mirrors(m, Last(h), h.lo) && Derived(work, m)
    ensures m.Some? ==> Saved(m.value)
    ensures work.Some? && work.value.nk.None? ==>
      KeptFrom(work.value, Reusable(m)) && Saved(AssignKeys(work.value, v, 0).node)
  {
    if m.Some? {
      LastIsGood(h);
    }
    if work.Some? && work.value.nk.None? {
      forall x | x in Reusable(m) ensures Saved(x) {
        NodesAreSaved(m.value, x);
      }
      AssignSaves(work.value, v, 0, Reusable(m));
    }
  }

  lemma {:induction false} StillReadable(h: History, r: Option<Node>)
    requires Complete(h) && h.lo <= h.hi + 1 && Readable(h, h.lo)
    requires forall x {:trigger x in RootProperNodes(r)} :: x in RootProperNodes(r) && x.nk.Some? ==>
      At(x, h.lo) == KeyOf(x)
    ensures Complete(Extend(h, r)) && Readable(Extend(h, r), h.lo)
  {
    SpanExtends(h, r, h.lo);
  }

  lemma {:induction false} UnchangedProperNodes(h: History, r: Node, x: Node)
    requires GoodHistory(h) && Readable(h, h.lo)
    requires r in RootNodes(Last(h)) && x in ProperNodes(r) && x.nk.Some?
    ensures At(x, h.lo) == KeyOf(x)
  {
    LastIsGood(h);
    var last := Last(h).value;
    if r != last {
      if r in Nodes(last.left) {
        NodesOfNodes(last.left, r);
      } else {
        NodesOfNodes(last.right, r);
      }
    }
    assert x in RootProperNodes(h.roots[h.hi]);
  }

  lemma {:induction false} NewProperNodes(h: History, m: Option<Node>, t: Node, x: Node)
    requires GoodHistory(h) && h.lo <= h.hi + 1 && Readable(h, h.lo) && Avl(t) && t.nk.None?
    requires Mirrors(m, Last(h), h.lo) && KeptFrom(t, Reusable(m)) && !ReusesMovedLeaf(Some(t), m, h.lo)
    requires x in Nodes(AssignKeys(t, h.hi + 1, 0).node)
    ensures x.nk.Some? && At(x, h.lo) == KeyOf(x)
  {
    var base := ReusedFrom(t, Last(h));
    ReusedIsKept(h, m, t);
    NewRootIsGood(h, t);
    AssignedNode(t, h.hi + 1, 0, base, x);
    if x in base {
      LastIsGood(h);
      if Last(h).value.Inner? {
        assert x in RootProperNodes(h.roots[h.hi]);
      }
    }
  }

  lemma {:induction false} SavedProperNodes(h: History, m: Option<Node>, work: Option<Node>)
    requires GoodHistory(h) && h.lo <= h.hi + 1 && Readable(h, h.lo)
    requires Mirrors(m, Last(h), h.lo) && Derived(work, m) && AvlRoot(work) && !ReusesMovedLeaf(work, m, h.lo)
    ensures forall x {:trigger x in RootProperNodes(Canon(SavedRoot(work, h.hi + 1)))} ::
      x in RootProperNodes(Canon(SavedRoot(work, h.hi + 1))) && x.nk.Some? ==> At(x, h.lo) == KeyOf(x)
  {
    var r := Canon(SavedRoot(work, h.hi + 1));
    forall x {:trigger x in RootProperNodes(r)} | x in RootProperNodes(r) && x.nk.Some?
      ensures At(x, h.lo) == KeyOf(x)
    {
      if work.value.nk.Some? {
        UnchangedRoot(h, m, work.value);
        UnchangedProperNodes(h, r.value, x);
      } else {
        DerivedSaves(h, m, work, h.hi + 1);
        ReusedIsKept(h, m, work.value);
        NewRootIsGood(h, work.value);
        NewProperNodes(h, m, work.value, x);
      }
    }
  }

  /**
   * SaveVersion extends the store by exactly the new version. It reads back, as the tree that was
   * saved, if and only if no leaf root of a pruned version is reused below the root.
   */
  lemma {:induction false} SaveExtendsStore(db: Db, h: History, m: Option<Node>, work: Option<Node>)
    requires Holds(db, h, h.lo) && Readable(h, h.lo) && h.lo <= h.hi + 1
    requires Mirrors(m, Last(h), h.lo) && Derived(work, m) && AvlRoot(work)
    ensures work.Some? && work.value.nk.None? ==> Saved(AssignKeys(work.value, h.hi + 1, 0).node)
    ensures
      var r := SavedRoot(work, h.hi + 1);
      var db' := Apply(db, SaveOps(work, h.hi + 1));
      && (r.Some? ==> r.value.nk.Some?)
      && (!ReusesMovedLeaf(work, m, h.lo) ==>
            && Holds(db', Extend(h, Canon(r)), h.lo) && Readable(Extend(h, Canon(r)), h.lo)
            && Mirrors(r, Canon(r), h.lo))
      && (!ReusesMovedLeaf(work, m, h.lo) <==> ReadVersion(db', h.hi + 1) == Ok(AtRoot(Canon(r), h.lo)))
  {
    var v := h.hi + 1;
    DerivedSaves(h, m, work, v);
    var r := SavedRoot(work, v);
    var db' := Apply(db, SaveOps(work, v));
    if !ReusesMovedLeaf(work, m, h.lo) {
      if work.None? {
        SaveEmptyExtends(db, h);
      } else if work.value.nk.Some? {
        UnchangedRoot(h, m, work.value);
        SaveUnchangedExtends(db, h, m, work.value);
      } else {
        ReusedIsKept(h, m, work.value);
        NewRootIsGood(h, work.value);
        SaveNewExtends(db, h, work.value);
      }
      SavedProperNodes(h, m, work);
      StillReadable(h, Canon(r));
      VersionReadsBack(db', Extend(h, Canon(r)), h.lo, v);
    } else {
      MovedLeafIsNew(h, m, work);
      MovedLeafBreaksSave(db, h, m, work.value);
      NewRootRecord(db, work.value, v);
    }
  }

  /** A tree that reuses the leaf below its root is new. */
  lemma {:induction false} MovedLeafIsNew(h: History, m: Option<Node>, work: Option<Node>)
    requires Derived(work, m) && ReusesMovedLeaf(work, m, h.lo)
    ensures work.value.nk.None?
  {
  }

  lemma {:induction false} NewRootRecord(db: Db, t: Node, v: int)
    requires t.nk.None? && Saved(AssignKeys(t, v, 0).node)
    ensures var db' := Apply(db, SaveOps(Some(t), v)); RootKey(v) in db' && db'[RootKey(v)].Stored?
  {
    var added := NewNodes(t, v, 0);
    var front, last := added[..|added| - 1], added[|added| - 1];
    assert last == AssignKeys(t, v, 0).node;
    ApplyOne(db, PutAll(front), Put(KeyOf(last), Stored(RecordOf(last))));
  }
}
