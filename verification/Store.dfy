/**
 * The node store: records under (version, nonce), how a version is read back, and what a store
 * must hold for a history of saved trees.
 */
module Store {
  import opened Base
  import opened Trees

  /** How an inner node names a child: by node key, or by hash in the format that preceded node keys. */
  datatype Link = ByKey(nk: NodeKey) | ByHash

  datatype NodeRecord =
    | LeafRecord(key: Bytes, value: Bytes)
    | InnerRecord(key: Bytes, height: int, size: int, left: Link, right: Link)

  /** What is stored under a key: a node, a reference to an older root, or the empty root. */
  datatype Record = Stored(node: NodeRecord) | Reference(nk: NodeKey) | EmptyRoot

  type Db = map<NodeKey, Record>

  datatype DbError = VersionDoesNotExist | MissingNode

  datatype BatchOp = Put(key: NodeKey, record: Record) | Del(key: NodeKey)

  function Write(db: Db, op: BatchOp): Db {
    match op
    case Put(k, r) => db[k := r]
    case Del(k) => db - {k}
  }

  /** A committed batch takes effect in order. */
  function Apply(db: Db, ops: seq<BatchOp>): Db {
    if ops == [] then db else Write(Apply(db, ops[..|ops| - 1]), ops[|ops| - 1])
  }

  lemma {:induction false} ApplyOne(db: Db, ops: seq<BatchOp>, op: BatchOp)
    ensures Apply(db, ops + [op]) == Write(Apply(db, ops), op)
  {
    assert (ops + [op])[..|ops|] == ops;
  }

  lemma {:induction false} ApplyAppends(db: Db, a: seq<BatchOp>, b: seq<BatchOp>)
    ensures Apply(db, a + b) == Apply(Apply(db, a), b)
  {
    if b == [] {
      assert a + b == a;
    } else {
      var front, last := b[..|b| - 1], b[|b| - 1];
      ApplyAppends(db, a, front);
      assert a + b == (a + front) + [last];
      ApplyOne(db, a + front, last);
    }
  }

  // ----- Saved trees -----

  /** Every node has been given a node key. */
  predicate Saved(t: Node) {
    Linked(t) && (t.Inner? ==> Saved(t.left) && Saved(t.right))
  }

  function KeyOf(t: Node): NodeKey
    requires t.nk.Some?
  {
    t.nk.value
  }

  /** A child at nonce 0 is taken for one in the older format and named by its hash. */
  function LinkOf(t: Node): Link
    requires t.nk.Some?
  {
    if KeyOf(t).nonce != 0 then ByKey(KeyOf(t)) else ByHash
  }

  /** A node and its children have node keys. */
  predicate Linked(t: Node) {
    t.nk.Some? && (t.Inner? ==> t.left.nk.Some? && t.right.nk.Some?)
  }

  function RecordOf(t: Node): NodeRecord
    requires Linked(t)
  {
    if t.Leaf? then LeafRecord(t.key, t.value)
    else InnerRecord(t.key, t.height, t.size, LinkOf(t.left), LinkOf(t.right))
  }

  function RootNodes(r: Option<Node>): set<Node> {
    if r.None? then {} else Nodes(r.value)
  }

  function RootProperNodes(r: Option<Node>): set<Node> {
    if r.None? then {} else ProperNodes(r.value)
  }

  lemma {:induction false} NodesAreSaved(t: Node, x: Node)
    requires Saved(t) && x in Nodes(t)
    ensures Saved(x)
  {
    if x != t {
      if x in Nodes(t.left) {
        NodesAreSaved(t.left, x);
      } else {
        NodesAreSaved(t.right, x);
      }
    }
  }

  // ----- Reading -----

  function HeightAt(db: Db, nk: NodeKey): nat {
    if nk in db && db[nk].Stored? && db[nk].node.InnerRecord? && db[nk].node.height > 0
    then db[nk].node.height else 0
  }

  /** `GetNode` with all its descendants. Heights must fall on the way down; there are no nodes by hash. */
  function ReadTree(db: Db, nk: NodeKey): Option<Node>
    decreases HeightAt(db, nk)
  {
    if nk !in db || !db[nk].Stored? then None
    else match db[nk].node
      case LeafRecord(key, value) => Some(Leaf(Some(nk), key, value))
      case InnerRecord(key, height, size, l, r) =>
        if l.ByHash? || r.ByHash? || HeightAt(db, l.nk) >= HeightAt(db, nk) || HeightAt(db, r.nk) >= HeightAt(db, nk)
        then None
        else
          var left, right := ReadTree(db, l.nk), ReadTree(db, r.nk);
          if left.None? || right.None? then None
          else Some(Inner(Some(nk), key, height, size, left.value, right.value))
  }

  function RootKey(version: int): NodeKey {
    NodeKey(version, 1)
  }

  /** `GetRoot`: a reference whose target is gone is looked up once more at nonce 0. */
  function GetRoot(db: Db, version: int): Result<Option<NodeKey>, DbError> {
    if RootKey(version) !in db then Err(VersionDoesNotExist)
    else match db[RootKey(version)]
      case EmptyRoot => Ok(None)
      case Stored(_) => Ok(Some(RootKey(version)))
      case Reference(nk) =>
        if nk in db then Ok(Some(nk))
        else if NodeKey(nk.version, 0) in db then Ok(Some(NodeKey(nk.version, 0)))
        else Err(VersionDoesNotExist)
  }

  /** The tree of a version as `GetImmutable` loads it. */
  function ReadVersion(db: Db, version: int): Result<Option<Node>, DbError> {
    var root :- GetRoot(db, version);
    if root.None? then Ok(None)
    else
      var t := ReadTree(db, root.value);
      if t.None? then Err(MissingNode) else Ok(t)
  }

  /** Every node below the root of `t` is stored under its own key. */
  predicate StoredBelow(db: Db, t: Node)
    requires Saved(t)
    decreases t, 0
  {
    t.Inner? ==> StoredAll(db, t.left) && StoredAll(db, t.right)
  }

  predicate StoredAll(db: Db, t: Node)
    requires Saved(t)
    decreases t, 1
  {
    KeyOf(t) in db && db[KeyOf(t)] == Stored(RecordOf(t)) && KeyOf(t).nonce != 0 && StoredBelow(db, t)
  }

  /** A tree whose root is stored under `nk` and whose descendants under their own keys reads back from `nk`. */
  lemma {:induction false} ReadsBack(db: Db, t: Node, nk: NodeKey)
    requires Saved(t) && Tapering(t) && StoredBelow(db, t) && nk in db && db[nk] == Stored(RecordOf(t))
    ensures ReadTree(db, nk) == Some(Rekey(t, nk))
    ensures HeightAt(db, nk) == Height(t)
  {
    TaperingBounds(t);
    if t.Inner? {
      ReadsBack(db, t.left, KeyOf(t.left));
      ReadsBack(db, t.right, KeyOf(t.right));
    }
  }

  function Rekey(t: Node, nk: NodeKey): Node {
    if t.Leaf? then Leaf(Some(nk), t.key, t.value)
    else Inner(Some(nk), t.key, t.height, t.size, t.left, t.right)
  }

  /** Conversely, all keys of whatever reads back are in the store. */
  lemma {:induction false} ReadKeysPresent(db: Db, nk: NodeKey, x: Node)
    requires ReadTree(db, nk).Some? && x in Nodes(ReadTree(db, nk).value)
    ensures x.nk.Some? && KeyOf(x) in db && db[KeyOf(x)].Stored? && ReadTree(db, KeyOf(x)) == Some(x)
    decreases HeightAt(db, nk)
  {
    var t := ReadTree(db, nk).value;
    if x != t {
      var record := db[nk].node;
      if x in Nodes(t.left) {
        ReadKeysPresent(db, record.left.nk, x);
      } else {
        ReadKeysPresent(db, record.right.nk, x);
      }
    }
  }

  predicate NoZeroLinks(r: Record) {
    r.Stored? && r.node.InnerRecord? ==>
      (r.node.left.ByKey? ==> r.node.left.nk.nonce != 0) && (r.node.right.ByKey? ==> r.node.right.nk.nonce != 0)
  }

  /** Below the root, no node that reads back sits at nonce 0. */
  lemma {:induction false} ReadNonces(db: Db, nk: NodeKey, x: Node)
    requires forall k :: k in db ==> NoZeroLinks(db[k])
    requires ReadTree(db, nk).Some? && x in ProperNodes(ReadTree(db, nk).value)
    ensures x.nk.Some? && KeyOf(x).nonce != 0
    decreases HeightAt(db, nk)
  {
    var t, record := ReadTree(db, nk).value, db[nk].node;
    assert NoZeroLinks(db[nk]);
    if x in Nodes(t.left) {
      if x != t.left {
        ReadNonces(db, record.left.nk, x);
      }
    } else if x != t.right {
      ReadNonces(db, record.right.nk, x);
    }
  }

  lemma {:induction false} StoredAllNodes(db: Db, t: Node)
    requires Saved(t)
    requires forall x {:trigger Saved(x)} {:trigger x in Nodes(t)} :: x in Nodes(t) && Saved(x) ==>
      KeyOf(x) in db && db[KeyOf(x)] == Stored(RecordOf(x)) && KeyOf(x).nonce != 0
    ensures StoredAll(db, t)
  {
    assert t in Nodes(t);
    if t.Inner? {
      StoredAllNodes(db, t.left);
      StoredAllNodes(db, t.right);
    }
  }

  // ----- Histories -----

  /** The trees saved under the retained versions lo..hi. */
  datatype History = History(lo: int, hi: int, roots: map<int, Option<Node>>)

  predicate InSpan(h: History, v: int) {
    h.lo <= v <= h.hi
  }

  ghost predicate Complete(h: History) {
    forall v :: InSpan(h, v) <==> v in h.roots
  }

  /** Versions never grow from parent to child, nonces are positive, and only a root or a leaf can have nonce 1. */
  predicate WellKeyed(t: Node)
    requires Saved(t)
  {
    && KeyOf(t).nonce >= 1
    && (t.Inner? ==>
          && WellKeyed(t.left) && WellKeyed(t.right)
          && KeyOf(t.left).version <= KeyOf(t).version
          && KeyOf(t.right).version <= KeyOf(t).version
          && (t.left.Inner? ==> KeyOf(t.left).nonce >= 2)
          && (t.right.Inner? ==> KeyOf(t.right).nonce >= 2))
  }

  ghost predicate DistinctKeys(s: set<Node>) {
    forall x, y {:trigger x in s, y in s} :: x in s && y in s && x.nk == y.nk ==> x == y
  }

  /** A tree fit to be the root of a version: its own nodes carry that version, the root with nonce 1. */
  ghost predicate GoodRoot(r: Option<Node>, version: int) {
    r.Some? ==>
      var t := r.value;
      && Avl(t) && Saved(t) && WellKeyed(t) && DistinctKeys(Nodes(t))
      && KeyOf(t).version <= version
      && (KeyOf(t).version == version ==> KeyOf(t).nonce == 1)
  }

  /** Copy on write: a node of the next version that is not new was already in this one. */
  ghost predicate CopyOnWrite(prev: Option<Node>, next: Option<Node>, version: int) {
    forall x {:trigger x in RootNodes(next)} ::
      x in RootNodes(next) && x.nk.Some? && KeyOf(x).version <= version ==> x in RootNodes(prev)
  }

  ghost predicate GoodVersion(h: History, v: int) {
    && v in h.roots && GoodRoot(h.roots[v], v)
    && (v < h.hi ==> v + 1 in h.roots && CopyOnWrite(h.roots[v], h.roots[v + 1], v))
  }

  ghost predicate GoodHistory(h: History) {
    Complete(h) && forall v {:trigger GoodVersion(h, v)} :: InSpan(h, v) ==> GoodVersion(h, v)
  }

  lemma {:induction false} VersionsFall(t: Node, x: Node)
    requires Saved(t) && WellKeyed(t) && x in Nodes(t)
    ensures Saved(x) && WellKeyed(x) && KeyOf(x).version <= KeyOf(t).version
    ensures x.Inner? && x != t ==> KeyOf(x).nonce >= 2
  {
    if x != t {
      if x in Nodes(t.left) {
        VersionsFall(t.left, x);
      } else {
        VersionsFall(t.right, x);
      }
    }
  }

  /** A node of a later version that is as old as version `v` belongs to every version from `v` on. */
  lemma {:induction false} OldNodesPersist(h: History, v: int, w: int, x: Node)
    requires GoodHistory(h) && h.lo <= v <= w <= h.hi
    requires x in RootNodes(h.roots[w]) && x.nk.Some? && KeyOf(x).version <= v
    ensures x in RootNodes(h.roots[v])
    decreases w - v
  {
    if v < w {
      assert GoodVersion(h, w - 1);
      OldNodesPersist(h, v, w - 1, x);
    }
  }

  /** All nodes of the versions v..hi. */
  ghost function Span(h: History, v: int): set<Node>
    requires Complete(h) && h.lo <= v
    decreases h.hi - v
  {
    if v > h.hi then {} else RootNodes(h.roots[v]) + Span(h, v + 1)
  }

  lemma {:induction false} SpanHolds(h: History, v: int, x: Node)
    requires Complete(h) && h.lo <= v
    ensures x in Span(h, v) <==>
      exists w {:trigger x in RootNodes(h.roots[w])} :: v <= w <= h.hi && x in RootNodes(h.roots[w])
    decreases h.hi - v
  {
    if v <= h.hi {
      SpanHolds(h, v + 1, x);
      if x in RootNodes(h.roots[v]) {
        assert v <= v <= h.hi && x in RootNodes(h.roots[v]);
      }
    }
  }

  lemma {:induction false} SpanNode(h: History, v: int, x: Node) returns (w: int)
    requires GoodHistory(h) && h.lo <= v && x in Span(h, v)
    ensures v <= w <= h.hi && x in RootNodes(h.roots[w])
    ensures Saved(x) && WellKeyed(x) && Avl(x) && KeyOf(x).version <= w
  {
    SpanHolds(h, v, x);
    w :| v <= w <= h.hi && x in RootNodes(h.roots[w]);
    assert GoodVersion(h, w);
    VersionsFall(h.roots[w].value, x);
    NodesAreAvl(h.roots[w].value, x);
  }

  /** No two nodes of a history share a node key. */
  lemma {:induction false} KeysUnique(h: History, x: Node, y: Node)
    requires GoodHistory(h) && x in Span(h, h.lo) && y in Span(h, h.lo) && x.nk == y.nk
    ensures x == y
  {
    var a := SpanNode(h, h.lo, x);
    var b := SpanNode(h, h.lo, y);
    if a <= b {
      OldNodesPersist(h, a, b, y);
      assert GoodVersion(h, a);
    } else {
      OldNodesPersist(h, b, a, x);
      assert GoodVersion(h, b);
    }
  }
}
