/**
 * What a store holds for a history of versions: exactly the root records and the reachable nodes.
 * After pruning below `lo`, a root node of a pruned version that is still in use sits at nonce 0.
 */
module Layout {
  import opened Base
  import opened Trees
  import opened Store

  /** Where a node is stored once everything below version `lo` has been pruned. */
  function At(x: Node, lo: int): NodeKey
    requires x.nk.Some?
  {
    if KeyOf(x).nonce == 1 && KeyOf(x).version < lo then NodeKey(KeyOf(x).version, 0) else KeyOf(x)
  }

  function AtRoot(r: Option<Node>, lo: int): Option<Node>
    requires r.Some? ==> r.value.nk.Some?
  {
    if r.None? then None else Some(Rekey(r.value, At(r.value, lo)))
  }

  ghost function Places(s: set<Node>, lo: int): set<NodeKey> {
    set x {:trigger x in s} | x in s && x.nk.Some? :: At(x, lo)
  }

  lemma {:induction false} InPlaces(s: set<Node>, lo: int, x: Node)
    requires x in s && x.nk.Some?
    ensures At(x, lo) in Places(s, lo)
  {
  }

  lemma {:induction false} PlaceOf(s: set<Node>, lo: int, k: NodeKey) returns (x: Node)
    requires k in Places(s, lo)
    ensures x in s && x.nk.Some? && At(x, lo) == k
  {
    x :| x in s && x.nk.Some? && At(x, lo) == k;
  }

  ghost function NodeKeys(h: History, lo: int): set<NodeKey>
    requires Complete(h) && h.lo <= lo
  {
    Places(Span(h, lo), lo)
  }

  ghost function RootKeys(h: History, lo: int): set<NodeKey> {
    set v | lo <= v <= h.hi :: RootKey(v)
  }

  ghost predicate HoldsNode(db: Db, x: Node, lo: int) {
    Saved(x) && At(x, lo) in db && db[At(x, lo)] == Stored(RecordOf(x))
  }

  /** The record of a version: empty, the root node itself, or a reference to where it is or was stored. */
  ghost predicate HoldsRoot(db: Db, r: Option<Node>, v: int, lo: int) {
    && RootKey(v) in db
    && if r.None? then db[RootKey(v)] == EmptyRoot
       else if r.value.nk == Some(RootKey(v)) then db[RootKey(v)].Stored?
       else r.value.nk.Some? && db[RootKey(v)] in {Reference(KeyOf(r.value)), Reference(At(r.value, lo))}
  }

  /** The store is exactly the records and nodes of the versions lo..hi. */
  ghost predicate Holds(db: Db, h: History, lo: int) {
    && GoodHistory(h) && h.lo <= lo
    && db.Keys == RootKeys(h, lo) + NodeKeys(h, lo)
    && (forall x {:trigger HoldsNode(db, x, lo)} :: x in Span(h, lo) ==> HoldsNode(db, x, lo))
    && (forall v {:trigger HoldsRoot(db, h.roots[v], v, lo)} :: lo <= v <= h.hi ==> HoldsRoot(db, h.roots[v], v, lo))
  }

  /** No retained tree has, below its root, a node that pruning below `lo` would move. */
  ghost predicate Readable(h: History, lo: int)
    requires Complete(h) && h.lo <= lo
  {
    forall v, x {:trigger x in RootProperNodes(h.roots[v])} ::
      lo <= v <= h.hi && x in RootProperNodes(h.roots[v]) && x.nk.Some? ==> At(x, lo) == KeyOf(x)
  }

  lemma {:induction false} SpanContains(h: History, lo: int, v: int, x: Node)
    requires Complete(h) && h.lo <= lo <= v <= h.hi && x in RootNodes(h.roots[v])
    ensures x in Span(h, lo)
  {
    SpanHolds(h, lo, x);
  }

  /** A version exists in the store exactly when it is retained. */
  lemma {:induction false} RootKeyPresent(db: Db, h: History, lo: int, v: int)
    requires Holds(db, h, lo)
    ensures RootKey(v) in db <==> lo <= v <= h.hi
  {
    if RootKey(v) in NodeKeys(h, lo) {
      var x := PlaceOf(Span(h, lo), lo, RootKey(v));
      var w := SpanNode(h, lo, x);
    }
  }

  /** The root key of a retained version, as `GetRoot` finds it. */
  lemma {:induction false} RootFound(db: Db, h: History, lo: int, v: int)
    requires Holds(db, h, lo) && lo <= v <= h.hi
    ensures h.roots[v].Some? ==> h.roots[v].value.nk.Some?
    ensures GetRoot(db, v) == Ok(if h.roots[v].None? then None else Some(At(h.roots[v].value, lo)))
    ensures h.roots[v].Some? ==> HoldsNode(db, h.roots[v].value, lo)
  {
    assert HoldsRoot(db, h.roots[v], v, lo) && GoodVersion(h, v);
    if h.roots[v].Some? {
      var t := h.roots[v].value;
      SpanContains(h, lo, v, t);
      assert HoldsNode(db, t, lo);
      if At(t, lo) != KeyOf(t) {
        RootKeyPresent(db, h, lo, KeyOf(t).version);
      }
    }
  }

  lemma {:induction false} StoredWhenReadable(db: Db, h: History, lo: int, v: int, x: Node)
    requires Holds(db, h, lo) && Readable(h, lo) && lo <= v <= h.hi && x in RootProperNodes(h.roots[v])
    ensures Saved(x) && StoredAll(db, x)
  {
    var t := h.roots[v].value;
    assert GoodVersion(h, v);
    NodesAreSaved(t, x);
    forall y {:trigger y in Nodes(x)} | y in Nodes(x) && Saved(y)
      ensures KeyOf(y) in db && db[KeyOf(y)] == Stored(RecordOf(y)) && KeyOf(y).nonce != 0
    {
      assert y in RootProperNodes(h.roots[v]) by {
        if x in Nodes(t.left) {
          NodesOfNodes(t.left, x);
        } else {
          NodesOfNodes(t.right, x);
        }
      }
      SpanContains(h, lo, v, y);
      assert HoldsNode(db, y, lo);
      VersionsFall(t, y);
    }
    StoredAllNodes(db, x);
  }

  /** Every retained version reads back as the tree that was saved, its root possibly at nonce 0. */
  lemma {:induction false} VersionReadsBack(db: Db, h: History, lo: int, v: int)
    requires Holds(db, h, lo) && Readable(h, lo) && lo <= v <= h.hi
    ensures h.roots[v].Some? ==> h.roots[v].value.nk.Some?
    ensures ReadVersion(db, v) == Ok(AtRoot(h.roots[v], lo))
  {
    RootFound(db, h, lo, v);
    assert GoodVersion(h, v);
    if h.roots[v].Some? {
      var t := h.roots[v].value;
      if t.Inner? {
        StoredWhenReadable(db, h, lo, v, t.left);
        StoredWhenReadable(db, h, lo, v, t.right);
      }
      MeasuredTapers(t);
      ReadsBack(db, t, At(t, lo));
    }
  }

  /** Conversely, when a version reads back, nothing below its root was moved. */
  lemma {:induction false} ReadBackNeedsReadable(db: Db, h: History, lo: int, v: int, x: Node)
    requires Holds(db, h, lo) && lo <= v <= h.hi
    requires x in RootProperNodes(h.roots[v]) && x.nk.Some?
    requires h.roots[v].value.nk.Some? && ReadVersion(db, v) == Ok(AtRoot(h.roots[v], lo))
    ensures At(x, lo) == KeyOf(x)
  {
    RootFound(db, h, lo, v);
    var t := h.roots[v].value;
    var t' := Rekey(t, At(t, lo));
    assert x in Nodes(t');
    ReadKeysPresent(db, At(t, lo), x);
    if At(x, lo) != KeyOf(x) {
      RootKeyPresent(db, h, lo, KeyOf(x).version);
    }
  }

  /** A stored node reads back as it is, or, if something below it was moved away, not at all. */
  lemma {:induction false} ReadsOrFails(db: Db, h: History, lo: int, x: Node)
    requires Holds(db, h, lo) && x in Span(h, lo)
    ensures x.nk.Some? && ReadTree(db, At(x, lo)) in {None, Some(Rekey(x, At(x, lo)))}
    decreases x
  {
    var w := SpanNode(h, lo, x);
    assert HoldsNode(db, x, lo);
    if x.Inner? {
      NodesOfNodes(h.roots[w].value, x);
      LinkReadsOrFails(db, h, lo, w, x, x.left);
      LinkReadsOrFails(db, h, lo, w, x, x.right);
    }
  }

  lemma {:induction false} LinkReadsOrFails(db: Db, h: History, lo: int, w: int, x: Node, child: Node)
    requires Holds(db, h, lo) && lo <= w <= h.hi && x in RootNodes(h.roots[w])
    requires x.Inner? && (child == x.left || child == x.right) && child in RootNodes(h.roots[w])
    ensures child.nk.Some? && ReadTree(db, KeyOf(child)) in {None, Some(child)}
    decreases x, 0
  {
    SpanContains(h, lo, w, child);
    ReadsOrFails(db, h, lo, child);
    if At(child, lo) != KeyOf(child) {
      RootKeyPresent(db, h, lo, KeyOf(child).version);
    }
  }

  /** A version with a moved node below its root cannot be read at all. */
  lemma {:induction false} MovedNodeIsLost(db: Db, h: History, lo: int, v: int, x: Node)
    requires Holds(db, h, lo) && lo <= v <= h.hi
    requires x in RootProperNodes(h.roots[v]) && x.nk.Some? && At(x, lo) != KeyOf(x)
    ensures ReadVersion(db, v) == Err(MissingNode)
  {
    RootFound(db, h, lo, v);
    SpanContains(h, lo, v, h.roots[v].value);
    ReadsOrFails(db, h, lo, h.roots[v].value);
    if ReadVersion(db, v) == Ok(AtRoot(h.roots[v], lo)) {
      ReadBackNeedsReadable(db, h, lo, v, x);
    }
  }
}
