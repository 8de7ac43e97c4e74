/**
 * DeleteVersionsTo: the oldest versions are dropped one by one. All reads see the store as it was before
 * the batch; the batch deletes the orphans of each version and moves a root that is still in use to nonce 0.
 */
module Pruning {
  import opened Base
  import opened Trees
  import opened Store
  import opened Layout
  import opened Saving
  import opened Orphans

  // ----- The batch -----

  predicate AllKeyed(s: seq<Node>) {
    forall i :: 0 <= i < |s| ==> s[i].nk.Some?
  }

  /** An orphan that was the root of an earlier version has been moved to nonce 0 by now. */
  function OrphanOps(orphans: seq<Node>, v: int): seq<BatchOp>
    requires AllKeyed(orphans)
  {
    if orphans == [] then []
    else OrphanOps(orphans[..|orphans| - 1], v) + [Del(At(orphans[|orphans| - 1], v))]
  }

  /** The root record of a pruned version goes; a root the next version still refers to moves to nonce 0. */
  function RootOps(db: Db, v: int, rootKey: Option<NodeKey>, nextKey: Option<NodeKey>): seq<BatchOp> {
    (if rootKey != Some(RootKey(v)) then [Del(RootKey(v))] else []) +
    (if nextKey == Some(RootKey(v)) && RootKey(v) in db
     then [Del(RootKey(v)), Put(NodeKey(v, 0), db[RootKey(v)])] else [])
  }

  function ReadOrphans(db: Db, v: int): Result<seq<Node>, DbError> {
    var c :- ReadVersion(db, v + 1);
    var p :- ReadVersion(db, v);
    Ok(OrphanedRoot(p, RootNodes(c)))
  }

  lemma {:induction false} ReadIsKeyed(db: Db, nk: NodeKey)
    requires ReadTree(db, nk).Some?
    ensures Saved(ReadTree(db, nk).value)
    decreases HeightAt(db, nk)
  {
    if db[nk].node.InnerRecord? {
      ReadIsKeyed(db, db[nk].node.left.nk);
      ReadIsKeyed(db, db[nk].node.right.nk);
    }
  }

  lemma {:induction false} OrphanedAreNodes(t: Node, kept: set<Node>, x: Node)
    requires x in Orphaned(t, kept)
    ensures x in Nodes(t)
  {
    if t.Inner? && x != t {
      if x in Orphaned(t.left, kept) {
        OrphanedAreNodes(t.left, kept, x);
      } else {
        OrphanedAreNodes(t.right, kept, x);
      }
    }
  }

  lemma {:induction false} OrphansKeyed(db: Db, v: int)
    requires ReadOrphans(db, v).Ok?
    ensures AllKeyed(ReadOrphans(db, v).value)
  {
    var p := ReadVersion(db, v).value;
    if p.Some? {
      ReadIsKeyed(db, GetRoot(db, v).value.value);
      var orphans := ReadOrphans(db, v).value;
      forall i | 0 <= i < |orphans| ensures orphans[i].nk.Some? {
        var x := orphans[i];
        OrphanedAreNodes(p.value, RootNodes(ReadVersion(db, v + 1).value), x);
        NodesAreSaved(p.value, x);
      }
    }
  }

  /** `deleteVersion`: what it adds to the batch. */
  function DeleteVersionOps(db: Db, v: int): Result<seq<BatchOp>, DbError> {
    var rootKey :- GetRoot(db, v);
    var orphans :- ReadOrphans(db, v);
    var nextKey :- GetRoot(db, v + 1);
    OrphansKeyed(db, v);
    Ok(OrphanOps(orphans, v) + RootOps(db, v, rootKey, nextKey))
  }

  /** The versions first..to, one after the other, into one batch. */
  function PruneOps(db: Db, first: int, to: int): Result<seq<BatchOp>, DbError>
    decreases to - first
  {
    if first > to then Ok([])
    else
      var earlier :- PruneOps(db, first, to - 1);
      var last :- DeleteVersionOps(db, to);
      Ok(earlier + last)
  }

  /** A prune that succeeds deletes each of its versions. */
  lemma {:induction false} PruneSoFar(db: Db, first: int, version: int, to: int)
    requires first <= version <= to && PruneOps(db, first, to).Ok?
    ensures DeleteVersionOps(db, version).Ok?
    decreases -version + to
  {
    if version < to {
      PruneSoFar(db, first, version, to - 1);
    }
  }

  ghost function Elements(s: seq<Node>): set<Node> {
    set x | x in s
  }

  ghost function DeletedKeys(orphans: seq<Node>, v: int): set<NodeKey> {
    Places(Elements(orphans), v)
  }

  lemma {:induction false} OrphanOpsDelete(db: Db, orphans: seq<Node>, v: int)
    requires AllKeyed(orphans)
    ensures Apply(db, OrphanOps(orphans, v)) == db - DeletedKeys(orphans, v)
  {
    if orphans != [] {
      var front, last := orphans[..|orphans| - 1], orphans[|orphans| - 1];
      OrphanOpsDelete(db, front, v);
      ApplyOne(db, OrphanOps(front, v), Del(At(last, v)));
      assert Elements(orphans) == Elements(front) + {last};
      assert DeletedKeys(orphans, v) == DeletedKeys(front, v) + {At(last, v)};
    } else {
      assert DeletedKeys(orphans, v) == {};
    }
  }

  // ----- What a prune reads -----

  lemma {:induction false} RekeyedRoot(t: Node, nk: NodeKey)
    requires Saved(t) && Avl(t) && KeyOf(t).version == nk.version && WellKeyed(t)
    ensures Avl(Rekey(t, nk)) && Falling(Rekey(t, nk)) && Saved(Rekey(t, nk))
    ensures Nodes(Rekey(t, nk)) == {Rekey(t, nk)} + ProperNodes(t)
  {
    WellKeyedFalls(t);
  }

  lemma {:induction false} WellKeyedFalls(t: Node)
    requires Saved(t) && WellKeyed(t)
    ensures Falling(t)
  {
    if t.Inner? {
      WellKeyedFalls(t.left);
      WellKeyedFalls(t.right);
    }
  }

  /** The two roots of a step as they are read from a store pruned below `f`. */
  ghost predicate Step(h: History, f: int, v: int, p: Option<Node>, c: Option<Node>) {
    && GoodHistory(h) && h.lo <= f <= v < h.hi && Readable(h, f)
    && p == h.roots[v] && c == h.roots[v + 1]
    && GoodRoot(p, v) && GoodRoot(c, v + 1)
  }

  lemma {:induction false} StepOf(h: History, f: int, v: int)
    requires GoodHistory(h) && h.lo <= f <= v < h.hi && Readable(h, f)
    ensures Step(h, f, v, h.roots[v], h.roots[v + 1])
  {
    assert GoodVersion(h, v) && GoodVersion(h, v + 1);
  }

  /** Whether a node of the older version stays is the same question before and after the roots were moved. */
  lemma {:induction false} SameOrphans(h: History, f: int, v: int, p: Option<Node>, c: Option<Node>)
    requires Step(h, f, v, p, c)
    ensures forall x {:trigger x in RootProperNodes(p)} :: x in RootProperNodes(p) ==>
      (x in RootNodes(AtRoot(c, f)) <==> x in RootNodes(c))
    ensures p.Some? ==> (AtRoot(p, f).value in RootNodes(AtRoot(c, f)) <==> p.value in RootNodes(c))
  {
    forall x {:trigger x in RootProperNodes(p)} | x in RootProperNodes(p)
      ensures x in RootNodes(AtRoot(c, f)) <==> x in RootNodes(c)
    {
      if c.Some? {
        VersionsFall(p.value, x);
        RekeyedRoot(c.value, At(c.value, f));
        assert At(x, f) == KeyOf(x);
      }
    }
    if p.Some? && c.Some? {
      var p', c' := AtRoot(p, f).value, AtRoot(c, f).value;
      RekeyedRoot(c.value, At(c.value, f));
      if p.value in ProperNodes(c.value) {
        assert p.value in RootProperNodes(h.roots[v + 1]);
        assert p' == p.value;
      }
      if p' in ProperNodes(c.value) {
        VersionsFall(c.value, p');
      }
    }
  }

  /** What is read back is a pair of consecutive versions. */
  lemma {:induction false} ReadConsecutive(h: History, f: int, v: int, p: Option<Node>, c: Option<Node>)
    requires Step(h, f, v, p, c)
    ensures Consecutive(AtRoot(p, f), AtRoot(c, f), v)
  {
    var p', c' := AtRoot(p, f), AtRoot(c, f);
    if p.Some? {
      RekeyedRoot(p.value, At(p.value, f));
    }
    if c.Some? {
      RekeyedRoot(c.value, At(c.value, f));
    }
    assert GoodVersion(h, v);
    forall x {:trigger x in RootNodes(c')} | x in RootNodes(c') && x.nk.Some? && KeyOf(x).version <= v
      ensures x in RootNodes(p')
    {
      var y := if x == c'.value then c.value else x;
      VersionsFall(c.value, y);
      assert y in RootNodes(c) && y in RootNodes(p);
      if x == c'.value && y != p.value {
        assert y in RootProperNodes(h.roots[v]);
      }
      if x != c'.value {
        assert x in RootProperNodes(h.roots[v + 1]);
      }
    }
  }

  // ----- One version -----

  /** The leaf that was the root of version `v` sits below the root of the next version. */
  ghost predicate LeafReused(h: History, v: int)
    requires Complete(h)
  {
    InSpan(h, v + 1) && exists x {:trigger x in RootProperNodes(h.roots[v + 1])} ::
      x in RootProperNodes(h.roots[v + 1]) && x.nk == Some(RootKey(v))
  }

  ghost function Dropped(p: Option<Node>, c: Option<Node>): set<Node> {
    RootNodes(p) - RootNodes(c)
  }

  /** The orphans found are the nodes that left the history, the root under the key it is read from. */
  lemma {:induction false} OrphansFound(h: History, f: int, v: int, p: Option<Node>, c: Option<Node>, x: Node)
    requires Step(h, f, v, p, c) && p.Some?
    ensures x in RootProperNodes(p) ==>
      (x in OrphanedRoot(AtRoot(p, f), RootNodes(AtRoot(c, f))) <==> x in Dropped(p, c))
    ensures AtRoot(p, f).value in OrphanedRoot(AtRoot(p, f), RootNodes(AtRoot(c, f))) <==> p.value in Dropped(p, c)
    ensures x in OrphanedRoot(AtRoot(p, f), RootNodes(AtRoot(c, f))) ==>
      x == AtRoot(p, f).value || x in RootProperNodes(p)
  {
    var p', kept := AtRoot(p, f).value, RootNodes(AtRoot(c, f));
    SameOrphans(h, f, v, p, c);
    RekeyedRoot(p.value, At(p.value, f));
    if c.Some? {
      NodesDisowned(AtRoot(c, f).value);
    }
    OrphanedExactly(p', kept, x);
    OrphanedExactly(p', kept, p');
  }

  lemma {:induction false} DeletedIsDropped(h: History, f: int, v: int, p: Option<Node>, c: Option<Node>, k: NodeKey)
    requires Step(h, f, v, p, c) && k in DeletedKeys(OrphanedRoot(AtRoot(p, f), RootNodes(AtRoot(c, f))), v)
    ensures k in Places(Dropped(p, c), v)
  {
    var x := PlaceOf(Elements(OrphanedRoot(AtRoot(p, f), RootNodes(AtRoot(c, f)))), v, k);
    OrphansFound(h, f, v, p, c, x);
    InPlaces(Dropped(p, c), v, if x == AtRoot(p, f).value then p.value else x);
  }

  lemma {:induction false} DroppedIsDeleted(h: History, f: int, v: int, p: Option<Node>, c: Option<Node>, k: NodeKey)
    requires Step(h, f, v, p, c) && k in Places(Dropped(p, c), v)
    ensures k in DeletedKeys(OrphanedRoot(AtRoot(p, f), RootNodes(AtRoot(c, f))), v)
  {
    var y := PlaceOf(Dropped(p, c), v, k);
    OrphansFound(h, f, v, p, c, y);
    InPlaces(Elements(OrphanedRoot(AtRoot(p, f), RootNodes(AtRoot(c, f)))), v,
             if y == p.value then AtRoot(p, f).value else y);
  }

  /** The keys deleted for orphans are those of the nodes that left the history. */
  lemma {:induction false} DeletedAreDropped(h: History, f: int, v: int, p: Option<Node>, c: Option<Node>)
    requires Step(h, f, v, p, c)
    ensures DeletedKeys(OrphanedRoot(AtRoot(p, f), RootNodes(AtRoot(c, f))), v) == Places(Dropped(p, c), v)
  {
    var deleted := DeletedKeys(OrphanedRoot(AtRoot(p, f), RootNodes(AtRoot(c, f))), v);
    var dropped := Places(Dropped(p, c), v);
    forall k | k in deleted ensures k in dropped {
      DeletedIsDropped(h, f, v, p, c, k);
    }
    forall k | k in dropped ensures k in deleted {
      DroppedIsDeleted(h, f, v, p, c, k);
    }
  }

  /** The root of `r` is stored under the root key of version `v` itself. */
  predicate Owns(r: Option<Node>, v: int) {
    r.Some? && r.value.nk == Some(RootKey(v))
  }

  /** The store after version `v` has been dropped. */
  ghost function Pruned(db: Db, p: Option<Node>, c: Option<Node>, v: int, record: Record): Db {
    var rest := db - Places(Dropped(p, c), v) - (if !Owns(p, v) || Owns(c, v) then {RootKey(v)} else {});
    if Owns(c, v) then rest[NodeKey(v, 0) := record] else rest
  }

  lemma {:induction false} RootOpsEffect(db: Db, d: Db, v: int, rootKey: Option<NodeKey>, nextKey: Option<NodeKey>)
    requires nextKey == Some(RootKey(v)) ==> RootKey(v) in db
    ensures
      var rest := d - (if rootKey != Some(RootKey(v)) || nextKey == Some(RootKey(v)) then {RootKey(v)} else {});
      Apply(d, RootOps(db, v, rootKey, nextKey)) ==
        if nextKey == Some(RootKey(v)) then rest[NodeKey(v, 0) := db[RootKey(v)]] else rest
  {
    var a := if rootKey != Some(RootKey(v)) then [Del(RootKey(v))] else [];
    ApplyOne(d, [], Del(RootKey(v)));
    assert [] + [Del(RootKey(v))] == [Del(RootKey(v))];
    if nextKey == Some(RootKey(v)) {
      var move := Put(NodeKey(v, 0), db[RootKey(v)]);
      ApplyOne(d, a, Del(RootKey(v)));
      ApplyOne(d, a + [Del(RootKey(v))], move);
      assert RootOps(db, v, rootKey, nextKey) == a + [Del(RootKey(v))] + [move];
      assert Apply(d, RootOps(db, v, rootKey, nextKey)) == (d - {RootKey(v)})[NodeKey(v, 0) := db[RootKey(v)]];
    } else {
      assert RootOps(db, v, rootKey, nextKey) == a;
    }
  }

  lemma {:induction false} DeleteVersionReads(db: Db, h: History, f: int, v: int)
    requires Holds(db, h, f) && Readable(h, f) && f <= v < h.hi
    ensures Step(h, f, v, h.roots[v], h.roots[v + 1])
    ensures ReadOrphans(db, v) == Ok(OrphanedRoot(AtRoot(h.roots[v], f), RootNodes(AtRoot(h.roots[v + 1], f))))
    ensures GetRoot(db, v).Ok? && (GetRoot(db, v).value == Some(RootKey(v)) <==> Owns(h.roots[v], v))
    ensures GetRoot(db, v + 1).Ok? && (GetRoot(db, v + 1).value == Some(RootKey(v)) <==> Owns(h.roots[v + 1], v))
    ensures RootKey(v) in db
  {
    StepOf(h, f, v);
    VersionReadsBack(db, h, f, v);
    VersionReadsBack(db, h, f, v + 1);
    RootFound(db, h, f, v);
    RootFound(db, h, f, v + 1);
    RootKeyPresent(db, h, f, v);
  }

  lemma {:induction false} DeleteVersionWrites(db: Db, v: int, d: Db, orphans: seq<Node>)
    requires ReadOrphans(db, v) == Ok(orphans) && GetRoot(db, v).Ok? && GetRoot(db, v + 1).Ok? && RootKey(v) in db
    ensures DeleteVersionOps(db, v).Ok?
    ensures
      var moved := GetRoot(db, v + 1).value == Some(RootKey(v));
      var gone := GetRoot(db, v).value != Some(RootKey(v)) || moved;
      var rest := d - DeletedKeys(orphans, v) - (if gone then {RootKey(v)} else {});
      Apply(d, DeleteVersionOps(db, v).value) == if moved then rest[NodeKey(v, 0) := db[RootKey(v)]] else rest
  {
    OrphansKeyed(db, v);
    OrphanOpsDelete(d, orphans, v);
    var rootKey, nextKey := GetRoot(db, v).value, GetRoot(db, v + 1).value;
    ApplyAppends(d, OrphanOps(orphans, v), RootOps(db, v, rootKey, nextKey));
    RootOpsEffect(db, Apply(d, OrphanOps(orphans, v)), v, rootKey, nextKey);
  }

  /** `deleteVersion` never fails on a readable store, and drops exactly one version's share. */
  lemma {:induction false} DeleteVersionEffect(db: Db, h: History, f: int, v: int, d: Db)
    requires Holds(db, h, f) && Readable(h, f) && f <= v < h.hi
    ensures DeleteVersionOps(db, v).Ok? && RootKey(v) in db
    ensures Apply(d, DeleteVersionOps(db, v).value) == Pruned(d, h.roots[v], h.roots[v + 1], v, db[RootKey(v)])
  {
    DeleteVersionReads(db, h, f, v);
    DeletedAreDropped(h, f, v, h.roots[v], h.roots[v + 1]);
    DeleteVersionWrites(db, v, d, ReadOrphans(db, v).value);
  }

  // ----- The store after one version -----

  /** Where the nodes of later versions are found once version `v` is gone. */
  lemma {:induction false} LaterNode(h: History, v: int, x: Node)
    requires GoodHistory(h) && h.lo <= v < h.hi && !LeafReused(h, v) && x in Span(h, v + 1)
    ensures Saved(x) && WellKeyed(x)
    ensures KeyOf(x).version <= v ==> x in RootNodes(h.roots[v + 1]) && x in RootNodes(h.roots[v])
    ensures x.nk == Some(RootKey(v)) ==>
      Owns(h.roots[v + 1], v) && x == h.roots[v + 1].value && At(x, v + 1) == NodeKey(v, 0)
    ensures x.nk != Some(RootKey(v)) ==> At(x, v + 1) == At(x, v)
  {
    var w := SpanNode(h, v + 1, x);
    if KeyOf(x).version <= v {
      OldNodesPersist(h, v + 1, w, x);
      OldNodesPersist(h, v, v + 1, x);
      assert x == h.roots[v + 1].value || x in RootProperNodes(h.roots[v + 1]);
    }
  }

  /** A dropped node shares its place with no later node. */
  lemma {:induction false} DroppedIsAlone(h: History, v: int, x: Node, y: Node)
    requires GoodHistory(h) && h.lo <= v < h.hi && !LeafReused(h, v)
    requires x in Span(h, v + 1) && y in Dropped(h.roots[v], h.roots[v + 1]) && y.nk.Some?
    ensures x.nk.Some? && At(y, v) != At(x, v)
  {
    LaterNode(h, v, x);
    assert GoodVersion(h, v);
    VersionsFall(h.roots[v].value, y);
    if At(y, v) == At(x, v) {
      SpanContains(h, h.lo, v, y);
      SpanHolds(h, v + 1, x);
      SpanHolds(h, h.lo, x);
      KeysUnique(h, x, y);
    }
  }

  /** The root of a version, if it is stored under its own key, is dropped or becomes the next root. */
  lemma {:induction false} OwnRootGoes(h: History, v: int)
    requires GoodHistory(h) && h.lo <= v < h.hi && !LeafReused(h, v) && Owns(h.roots[v], v)
    ensures h.roots[v].value in Dropped(h.roots[v], h.roots[v + 1]) || Owns(h.roots[v + 1], v)
  {
    var p, c, below := h.roots[v].value, h.roots[v + 1], RootProperNodes(h.roots[v + 1]);
    assert p in Nodes(p);
    assert p in RootNodes(c) ==> p == c.value || p in below;
  }

  ghost predicate Dropping(d: Db, h: History, v: int, record: Record) {
    && Holds(d, h, v) && v < h.hi && !LeafReused(h, v)
    && (Owns(h.roots[v + 1], v) ==> Saved(h.roots[v + 1].value) && record == Stored(RecordOf(h.roots[v + 1].value)))
  }

  ghost function After(d: Db, h: History, v: int, record: Record): Db
    requires Dropping(d, h, v, record)
  {
    Pruned(d, h.roots[v], h.roots[v + 1], v, record)
  }

  lemma {:induction false} SpanSplits(h: History, v: int, x: Node)
    requires Complete(h) && h.lo <= v <= h.hi
    ensures x in Span(h, v) <==> x in RootNodes(h.roots[v]) || x in Span(h, v + 1)
  {
  }

  /** Later nodes stay where they were, or the next root is where it was moved to. */
  lemma {:induction false} LaterNodeStays(d: Db, h: History, v: int, record: Record, x: Node)
    requires Dropping(d, h, v, record) && x in Span(h, v + 1)
    ensures HoldsNode(After(d, h, v, record), x, v + 1)
  {
    LaterNode(h, v, x);
    if x.nk != Some(RootKey(v)) {
      SpanSplits(h, v, x);
      assert HoldsNode(d, x, v);
      if At(x, v) in Places(Dropped(h.roots[v], h.roots[v + 1]), v) {
        var y := PlaceOf(Dropped(h.roots[v], h.roots[v + 1]), v, At(x, v));
        DroppedIsAlone(h, v, x, y);
      }
      assert At(x, v) != NodeKey(v, 0);
    }
  }

  lemma {:induction false} LaterRootStays(d: Db, h: History, v: int, record: Record, w: int)
    requires Dropping(d, h, v, record) && v < w <= h.hi
    ensures HoldsRoot(After(d, h, v, record), h.roots[w], w, v + 1)
  {
    assert HoldsRoot(d, h.roots[w], w, v);
    if RootKey(w) in Places(Dropped(h.roots[v], h.roots[v + 1]), v) {
      var y := PlaceOf(Dropped(h.roots[v], h.roots[v + 1]), v, RootKey(w));
      assert GoodVersion(h, v);
      VersionsFall(h.roots[v].value, y);
    }
  }

  /** Whatever is left belongs to a later version. */
  lemma {:induction false} LeftoverIsNeeded(d: Db, h: History, v: int, record: Record, k: NodeKey)
    requires Dropping(d, h, v, record) && k in After(d, h, v, record)
    ensures k in RootKeys(h, v + 1) + NodeKeys(h, v + 1)
  {
    var p, c := h.roots[v], h.roots[v + 1];
    if k == NodeKey(v, 0) && Owns(c, v) {
      SpanContains(h, v + 1, v + 1, c.value);
      LaterNode(h, v, c.value);
    } else if k == RootKey(v) {
      if Owns(p, v) {
        OwnRootGoes(h, v);
      }
    } else if k in RootKeys(h, v) {
      assert k == RootKey(k.version) && v + 1 <= k.version <= h.hi;
    } else {
      var x := PlaceOf(Span(h, v), v, k);
      SpanSplits(h, v, x);
      if x !in Span(h, v + 1) {
        SpanSplits(h, v + 1, x);
        InPlaces(Dropped(p, c), v, x);
      }
      LaterNode(h, v, x);
    }
  }

  /** Dropping the oldest version leaves exactly the later versions. */
  lemma {:induction false} DropOldest(d: Db, h: History, v: int, record: Record)
    requires Dropping(d, h, v, record)
    ensures Holds(After(d, h, v, record), h, v + 1)
  {
    var d', lo := After(d, h, v, record), v + 1;
    forall x {:trigger HoldsNode(d', x, lo)} | x in Span(h, lo) ensures HoldsNode(d', x, lo) {
      LaterNodeStays(d, h, v, record, x);
    }
    forall w {:trigger HoldsRoot(d', h.roots[w], w, lo)} | lo <= w <= h.hi ensures HoldsRoot(d', h.roots[w], w, lo) {
      LaterRootStays(d, h, v, record, w);
    }
    forall k | k in NodeKeys(h, lo) ensures k in d' {
      var x := PlaceOf(Span(h, lo), lo, k);
      assert HoldsNode(d', x, lo);
    }
    forall k | k in RootKeys(h, lo) ensures k in d' {
      assert HoldsRoot(d', h.roots[k.version], k.version, lo);
    }
    forall k | k in d' ensures k in RootKeys(h, lo) + NodeKeys(h, lo) {
      LeftoverIsNeeded(d, h, v, record, k);
    }
  }

  // ----- DeleteVersionsTo -----

  lemma {:induction false} PruneStep(db: Db, f: int, n: int)
    requires f <= n && PruneOps(db, f, n - 1).Ok? && DeleteVersionOps(db, n).Ok?
    ensures PruneOps(db, f, n).Ok?
    ensures Apply(db, PruneOps(db, f, n).value) ==
      Apply(Apply(db, PruneOps(db, f, n - 1).value), DeleteVersionOps(db, n).value)
  {
    ApplyAppends(db, PruneOps(db, f, n - 1).value, DeleteVersionOps(db, n).value);
  }

  lemma {:induction false} DeleteVersionSucceeds(db: Db, h: History, f: int, v: int)
    requires Holds(db, h, f) && Readable(h, f) && f <= v < h.hi
    ensures DeleteVersionOps(db, v).Ok?
  {
    DeleteVersionReads(db, h, f, v);
  }

  /** A property of the store that every step of a prune carries on to the next version holds in the end. */
  lemma {:induction false} PruneStepwise(db: Db, f: int, n: int, holds: (Db, int) -> bool)
    requires f <= n + 1 && holds(db, f)
    requires forall v :: f <= v <= n ==> DeleteVersionOps(db, v).Ok?
    requires forall d, v {:trigger holds(d, v), DeleteVersionOps(db, v)} :: f <= v <= n && holds(d, v) ==>
      holds(Apply(d, DeleteVersionOps(db, v).value), v + 1)
    ensures PruneOps(db, f, n).Ok? && holds(Apply(db, PruneOps(db, f, n).value), n + 1)
    decreases n - f
  {
    if f <= n {
      PruneStepwise(db, f, n - 1, holds);
      PruneStep(db, f, n);
    }
  }

  /** On a readable store a prune below the latest version never fails. */
  lemma {:induction false} PruneSucceeds(db: Db, h: History, f: int, n: int)
    requires Holds(db, h, f) && Readable(h, f) && f <= n + 1 <= h.hi
    ensures PruneOps(db, f, n).Ok?
  {
    forall v | f <= v <= n ensures DeleteVersionOps(db, v).Ok? {
      DeleteVersionSucceeds(db, h, f, v);
    }
    PruneStepwise(db, f, n, (d: Db, v: int) => true);
  }

  lemma {:induction false} MovedRecord(db: Db, h: History, f: int, v: int)
    requires Holds(db, h, f) && f <= v < h.hi && Owns(h.roots[v + 1], v)
    ensures Saved(h.roots[v + 1].value) && RootKey(v) in db && db[RootKey(v)] == Stored(RecordOf(h.roots[v + 1].value))
  {
    RootFound(db, h, f, v + 1);
    assert HoldsNode(db, h.roots[v + 1].value, f);
  }

  lemma {:induction false} LeavesLaterStep(db: Db, h: History, f: int, v: int, d: Db)
    requires Holds(db, h, f) && Readable(h, f) && f <= v < h.hi && !LeafReused(h, v) && Holds(d, h, v)
    ensures DeleteVersionOps(db, v).Ok? && Holds(Apply(d, DeleteVersionOps(db, v).value), h, v + 1)
  {
    DeleteVersionEffect(db, h, f, v, d);
    if Owns(h.roots[v + 1], v) {
      MovedRecord(db, h, f, v);
    }
    DropOldest(d, h, v, db[RootKey(v)]);
  }

  /** Pruning leaves exactly the later versions, as long as no pruned leaf root lives on below the next root. */
  lemma {:induction false} PruneLeavesLater(db: Db, h: History, f: int, n: int)
    requires Holds(db, h, f) && Readable(h, f) && f <= n + 1 <= h.hi
    requires forall v :: f <= v <= n ==> !LeafReused(h, v)
    ensures PruneOps(db, f, n).Ok? && Holds(Apply(db, PruneOps(db, f, n).value), h, n + 1)
  {
    var holds := (d: Db, v: int) => Holds(d, h, v);
    StepsHold(db, h, f, n, holds);
    PruneStepwise(db, f, n, holds);
  }

  lemma {:induction false} StepsHold(db: Db, h: History, f: int, n: int, holds: (Db, int) -> bool)
    requires Holds(db, h, f) && Readable(h, f) && f <= n + 1 <= h.hi
    requires forall v :: f <= v <= n ==> !LeafReused(h, v)
    requires forall d, v {:trigger holds(d, v)} :: holds(d, v) <==> Holds(d, h, v)
    ensures forall v :: f <= v <= n ==> DeleteVersionOps(db, v).Ok?
    ensures forall d, v {:trigger holds(d, v), DeleteVersionOps(db, v)} :: f <= v <= n && holds(d, v) ==>
      holds(Apply(d, DeleteVersionOps(db, v).value), v + 1)
  {
    forall v | f <= v <= n ensures DeleteVersionOps(db, v).Ok? {
      DeleteVersionSucceeds(db, h, f, v);
    }
    forall d, v {:trigger holds(d, v), DeleteVersionOps(db, v)} | f <= v <= n && holds(d, v)
      ensures holds(Apply(d, DeleteVersionOps(db, v).value), v + 1)
    {
      LeavesLaterStep(db, h, f, v, d);
    }
  }

  /** A reused leaf is the root of its own version, and not the next root. */
  lemma {:induction false} ReusedLeafIsOwnRoot(h: History, u: int, leaf: Node)
    requires GoodHistory(h) && h.lo <= u < h.hi && leaf in RootProperNodes(h.roots[u + 1])
    requires leaf.nk == Some(RootKey(u))
    ensures h.roots[u] == Some(leaf) && !Owns(h.roots[u + 1], u)
  {
    assert GoodVersion(h, u) && GoodVersion(h, u + 1);
    OldNodesPersist(h, u, u + 1, leaf);
    var p, c := h.roots[u].value, h.roots[u + 1].value;
    VersionsFall(p, leaf);
    assert p in Nodes(p) && p.nk == leaf.nk;
    NotBelowItself(c);
    assert c in Nodes(c) && leaf in Nodes(c);
  }

  ghost predicate Reused(h: History, u: int, leaf: Node) {
    && GoodHistory(h) && h.lo <= u < h.hi
    && leaf in RootProperNodes(h.roots[u + 1]) && leaf.nk == Some(RootKey(u))
  }

  lemma {:induction false} ReusedLeafNotDropped(h: History, u: int, v: int, leaf: Node, x: Node)
    requires Reused(h, u, leaf) && h.lo <= v < h.hi
    requires x in Dropped(h.roots[v], h.roots[v + 1]) && x.nk.Some?
    ensures At(x, v) != RootKey(u)
  {
    ReusedLeafIsOwnRoot(h, u, leaf);
    assert GoodVersion(h, v);
    VersionsFall(h.roots[v].value, x);
    assert u == v ==> leaf in Nodes(h.roots[v].value);
  }

  /** The root record of a reused leaf survives every step of a prune. */
  lemma {:induction false} StuckRecordStays(h: History, u: int, v: int, d: Db, record: Record, leaf: Node)
    requires Reused(h, u, leaf) && h.lo <= v < h.hi && RootKey(u) in d
    ensures RootKey(u) in Pruned(d, h.roots[v], h.roots[v + 1], v, record)
  {
    ReusedLeafIsOwnRoot(h, u, leaf);
    var dropped := Dropped(h.roots[v], h.roots[v + 1]);
    if RootKey(u) in Places(dropped, v) {
      var x := PlaceOf(dropped, v, RootKey(u));
      ReusedLeafNotDropped(h, u, v, leaf, x);
    }
  }

  lemma {:induction false} StuckStep(db: Db, h: History, f: int, v: int, u: int, d: Db, leaf: Node)
    requires Holds(db, h, f) && Readable(h, f) && f <= v < h.hi && Reused(h, u, leaf) && RootKey(u) in d
    ensures DeleteVersionOps(db, v).Ok? && RootKey(u) in Apply(d, DeleteVersionOps(db, v).value)
  {
    DeleteVersionEffect(db, h, f, v, d);
    StuckRecordStays(h, u, v, d, db[RootKey(v)], leaf);
  }

  lemma {:induction false} StuckRecord(db: Db, h: History, f: int, n: int, u: int, leaf: Node)
    requires Holds(db, h, f) && Readable(h, f) && f <= u && f <= n + 1 <= h.hi && Reused(h, u, leaf)
    ensures PruneOps(db, f, n).Ok? && RootKey(u) in Apply(db, PruneOps(db, f, n).value)
  {
    RootKeyPresent(db, h, f, u);
    forall v | f <= v <= n ensures DeleteVersionOps(db, v).Ok? {
      DeleteVersionSucceeds(db, h, f, v);
    }
    var holds := (d: Db, v: int) => RootKey(u) in d;
    forall d, v {:trigger holds(d, v), DeleteVersionOps(db, v)} | f <= v <= n && holds(d, v)
      ensures holds(Apply(d, DeleteVersionOps(db, v).value), v + 1)
    {
      StuckStep(db, h, f, v, u, d, leaf);
    }
    PruneStepwise(db, f, n, holds);
  }

  /** No pruned version's leaf root lives on below the next root, nor, after being moved, below any later one. */
  ghost predicate PruneIsClean(h: History, f: int, n: int)
    requires Complete(h) && h.lo <= f <= n + 1
  {
    (forall v :: f <= v <= n ==> !LeafReused(h, v)) && Readable(h, n + 1)
  }

  /** Every version from `lo` on reads back as saved, and no earlier root record is left. */
  ghost predicate CleanlyPruned(db: Db, h: History, f: int, lo: int)
    requires GoodHistory(h) && h.lo <= f <= lo
  {
    && (forall w :: lo <= w <= h.hi ==>
          && (h.roots[w].Some? ==> h.roots[w].value.nk.Some?)
          && ReadVersion(db, w) == Ok(AtRoot(h.roots[w], lo)))
    && (forall u :: f <= u < lo ==> RootKey(u) !in db)
  }

  /**
   * DeleteVersionsTo(n) keeps every later version and removes every pruned one if and only if no leaf that
   * was the root of a pruned version is still in use below a root.
   */
  lemma {:induction false} PruneExactly(db: Db, h: History, f: int, n: int)
    requires Holds(db, h, f) && Readable(h, f) && f <= n + 1 <= h.hi
    ensures PruneOps(db, f, n).Ok?
    ensures CleanlyPruned(Apply(db, PruneOps(db, f, n).value), h, f, n + 1) <==> PruneIsClean(h, f, n)
    ensures PruneIsClean(h, f, n) ==> Holds(Apply(db, PruneOps(db, f, n).value), h, n + 1)
  {
    PruneSucceeds(db, h, f, n);
    var db', lo := Apply(db, PruneOps(db, f, n).value), n + 1;
    if v :| f <= v <= n && LeafReused(h, v) {
      var leaf :| leaf in RootProperNodes(h.roots[v + 1]) && leaf.nk == Some(RootKey(v));
      StuckRecord(db, h, f, n, v, leaf);
    } else {
      PruneLeavesLater(db, h, f, n);
      forall u | f <= u < lo ensures RootKey(u) !in db' {
        RootKeyPresent(db', h, lo, u);
      }
      if Readable(h, lo) {
        forall w | lo <= w <= h.hi
          ensures (h.roots[w].Some? ==> h.roots[w].value.nk.Some?) && ReadVersion(db', w) == Ok(AtRoot(h.roots[w], lo))
        {
          VersionReadsBack(db', h, lo, w);
        }
      } else {
        var w, x :| lo <= w <= h.hi && x in RootProperNodes(h.roots[w]) && x.nk.Some? && At(x, lo) != KeyOf(x);
        if CleanlyPruned(db', h, f, lo) {
          ReadBackNeedsReadable(db', h, lo, w, x);
        }
      }
    }
  }

  // ----- Forgetting the pruned versions -----

  function Trim(h: History, lo: int): History {
    History(lo, h.hi, map v | v in h.roots && lo <= v :: h.roots[v])
  }

  lemma {:induction false} TrimSpan(h: History, lo: int, v: int)
    requires Complete(h) && h.lo <= lo <= v
    ensures Complete(Trim(h, lo)) && Span(Trim(h, lo), v) == Span(h, v)
    decreases h.hi - v
  {
    assert Complete(Trim(h, lo));
    if v <= h.hi {
      TrimSpan(h, lo, v + 1);
    }
  }

  lemma {:induction false} TrimHolds(db: Db, h: History, lo: int)
    requires Holds(db, h, lo)
    ensures Holds(db, Trim(h, lo), lo)
    ensures Readable(h, lo) ==> Readable(Trim(h, lo), lo)
  {
    var t := Trim(h, lo);
    TrimSpan(h, lo, lo);
    forall v {:trigger GoodVersion(t, v)} | InSpan(t, v) ensures GoodVersion(t, v) {
      assert GoodVersion(h, v);
    }
    assert GoodHistory(t);
    forall v {:trigger HoldsRoot(db, t.roots[v], v, lo)} | lo <= v <= t.hi ensures HoldsRoot(db, t.roots[v], v, lo) {
      assert HoldsRoot(db, h.roots[v], v, lo);
    }
  }

  /** A clean prune leaves a store for the later versions alone. */
  lemma {:induction false} CleanPruneLeaves(db: Db, h: History, f: int, n: int)
    requires Holds(db, h, f) && Readable(h, f) && f <= n + 1 <= h.hi && PruneIsClean(h, f, n)
    ensures PruneOps(db, f, n).Ok?
    ensures Holds(Apply(db, PruneOps(db, f, n).value), Trim(h, n + 1), n + 1) && Readable(Trim(h, n + 1), n + 1)
  {
    PruneLeavesLater(db, h, f, n);
    TrimHolds(Apply(db, PruneOps(db, f, n).value), h, n + 1);
  }
}
