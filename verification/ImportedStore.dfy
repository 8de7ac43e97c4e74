/**
 * The store an import leaves. When the imported root has the version of the import, the store is exactly that of a
 * history with this one version, and every operation goes on from it. When the root is older, its record looks like one
 * of an earlier version, which the search for the first version may or may not come across.
 */
module ImportedStore {
  import opened Base
  import opened Trees
  import opened Store
  import opened Layout
  import opened Saving
  import opened Orphans
  import opened Pruning
  import opened Rewinding
  import opened Machine
  import opened ExportImport

  // ----- What is in the store -----

  /** A node of the imported tree and its record. */
  ghost predicate Kept(db: Db, i: Node, x: Node) {
    && x.nk.Some? && Saved(x) && KeyOf(x) in db && db[KeyOf(x)] == Stored(RecordOf(x))
    && (x != i ==> KeyOf(x).nonce >= 2)
  }

  /** The nodes of `i`, its root at nonce 1, a root record for the version, and nothing else. */
  ghost predicate Imports(db: Db, i: Node, version: int) {
    && Saved(i) && KeyOf(i).nonce == 1 && 1 <= KeyOf(i).version <= version
    && (forall x {:trigger Kept(db, i, x)} :: x in Nodes(i) ==> Kept(db, i, x))
    && (forall k :: k in db && k != RootKey(version) ==> IsKeyIn(i, k))
    && RootKey(version) in db && (KeyOf(i).version < version ==> db[RootKey(version)] == Reference(KeyOf(i)))
  }

  ghost predicate IsKeyIn(i: Node, k: NodeKey) {
    exists x {:trigger x in Nodes(i)} :: x in Nodes(i) && x.nk == Some(k)
  }

  lemma {:induction false} WrittenKey(r: Node, below: Db, k: NodeKey)
    requires AllLinked(WrittenBelow(r)) && below == Apply(map[], PutAll(WrittenBelow(r))) && k in below
    ensures exists x {:trigger x in ProperNodes(r)} :: x in ProperNodes(r) && x.nk == Some(k)
  {
    PutAllKeys(map[], WrittenBelow(r), k);
    var x :| x in WrittenBelow(r) && Linked(x) && KeyOf(x) == k;
    WrittenIsBelow(r, x);
  }

  lemma {:induction false} CommittedKey(r: Node, below: Db, version: int, i: Node, k: NodeKey)
    requires Linked(r) && AllLinked(WrittenBelow(r)) && below == Apply(map[], PutAll(WrittenBelow(r)))
    requires i == Rekey(r, NodeKey(KeyOf(r).version, 1))
    requires k in CommittedStore(below, r, version) && k != RootKey(version)
    ensures IsKeyIn(i, k)
  {
    if k == KeyOf(i) {
      assert i in Nodes(i);
    } else {
      WrittenKey(r, below, k);
      var x :| x in ProperNodes(r) && x.nk == Some(k);
      assert x in Nodes(i);
    }
  }

  lemma {:induction false} CommittedNode(t: Node, version: nat, r: Node, below: Db, i: Node, x: Node)
    requires Versioned(t, version) && Tapering(t) && r == Renumber(t, Zeros(version + 1)).node
    requires AllLinked(WrittenBelow(r)) && below == Apply(map[], PutAll(WrittenBelow(r)))
    requires i == Rekey(r, NodeKey(KeyOf(r).version, 1)) && x in Nodes(i)
    ensures Kept(CommittedStore(below, r, version), i, x)
  {
    RenumberTapers(t, Zeros(version + 1));
    if x != i {
      BelowStored(t, version, x);
      CommittedKeeps(below, r, version, KeyOf(x));
    }
  }

  lemma {:induction false} CommitImports(t: Node, version: nat, r: Node, below: Db, i: Node, db: Db)
    requires Versioned(t, version) && Tapering(t) && r == Renumber(t, Zeros(version + 1)).node
    requires AllLinked(WrittenBelow(r)) && below == Apply(map[], PutAll(WrittenBelow(r)))
    requires i == Imported(t, version) && db == CommittedStore(below, r, version)
    ensures Imports(db, i, version)
  {
    RenumberTapers(t, Zeros(version + 1));
    forall x {:trigger Kept(db, i, x)} | x in Nodes(i) ensures Kept(db, i, x) {
      CommittedNode(t, version, r, below, i, x);
    }
    forall k | k in db && k != RootKey(version) ensures IsKeyIn(i, k) {
      CommittedKey(r, below, version, i, k);
    }
  }

  /** `db` is the store after the export of `t` has been imported as `version` into an empty one. */
  ghost predicate ImportOf(t: Node, version: nat, db: Db) {
    && Versioned(t, version) && Avl(t) && Saved(t)
    && var st := AddedAll(ImportStart(version), Exported(t), version);
       && st.Ok? && AllLinked(st.value.written) && CommitOps(st.value, version).Ok?
       && db == Apply(map[], CommitOps(st.value, version).value)
  }

  lemma {:induction false} CommittedAs(t: Node, version: nat, st: ImportState, r: Numbered, db: Db)
    requires Versioned(t, version) && r == Renumber(t, Zeros(version + 1))
    requires st == ImportState([Built(r.node)], r.nonces, WrittenBelow(r.node)) && AllLinked(st.written)
    requires CommitOps(st, version).Ok? && db == Apply(map[], CommitOps(st, version).value)
    ensures db == CommittedStore(Apply(map[], PutAll(WrittenBelow(r.node))), r.node, version)
  {
    CommitEffect(st, version, r.node);
  }

  lemma {:induction false} ImportLeaves(t: Node, version: nat, db: Db)
    requires ImportOf(t, version, db)
    ensures Imports(db, Imported(t, version), version)
  {
    var r := Renumber(t, Zeros(version + 1));
    MeasuredTapers(t);
    ImportEnds(t, version);
    CommittedAs(t, version, AddedAll(ImportStart(version), Exported(t), version).value, r, db);
    CommitImports(t, version, r.node, Apply(map[], PutAll(WrittenBelow(r.node))), Imported(t, version), db);
  }

  // ----- The imported tree as the root of a version -----

  lemma {:induction false} RenumberFalls(t: Node, nonces: seq<int>)
    requires Versioned(t, |nonces| - 1) && Falling(t)
    ensures Falling(Renumber(t, nonces).node)
  {
    if t.Inner? {
      RenumberFalls(t.left, nonces);
      RenumberFalls(t.right, Renumber(t.left, nonces).nonces);
    }
  }

  lemma {:induction false} RenumberBalanced(t: Node, nonces: seq<int>)
    requires Versioned(t, |nonces| - 1) && Measured(t) && Balanced(t)
    ensures Balanced(Renumber(t, nonces).node)
  {
    if t.Inner? {
      var l := Renumber(t.left, nonces);
      RenumberBalanced(t.left, nonces);
      RenumberBalanced(t.right, l.nonces);
      RenumberKeepsShape(t.left, nonces);
      RenumberKeepsShape(t.right, l.nonces);
    }
  }

  lemma {:induction false} FallingIsKeyed(x: Node)
    requires Saved(x) && Falling(x)
    requires forall y {:trigger y in Nodes(x)} :: y in Nodes(x) ==> y.nk.Some? && KeyOf(y).nonce >= 2
    ensures WellKeyed(x)
  {
    assert x in Nodes(x);
    if x.Inner? {
      assert x.left in Nodes(x.left) && x.right in Nodes(x.right);
      FallingIsKeyed(x.left);
      FallingIsKeyed(x.right);
    }
  }

  /** Below a root at nonce 1, an imported tree has nonces from 2 on. */
  lemma {:induction false} RootIsKeyed(db: Db, i: Node, version: int)
    requires Imports(db, i, version) && Falling(i) && !(i in ProperNodes(i))
    ensures WellKeyed(i)
  {
    forall x {:trigger x in ProperNodes(i)} | x in ProperNodes(i) ensures x.nk.Some? && KeyOf(x).nonce >= 2 {
      assert x in Nodes(i) && Kept(db, i, x);
    }
    if i.Inner? {
      assert i.left in Nodes(i.left) && i.right in Nodes(i.right);
      FallingIsKeyed(i.left);
      FallingIsKeyed(i.right);
    }
  }

  lemma {:induction false} ImportedRoot(t: Node, version: nat, r: Node, i: Node)
    requires Versioned(t, version) && Avl(t) && Falling(t)
    requires r == Renumber(t, Zeros(version + 1)).node && i == Imported(t, version)
    ensures Avl(i) && Falling(i) && i !in ProperNodes(i)
  {
    RenumberKeepsShape(t, Zeros(version + 1));
    RenumberFalls(t, Zeros(version + 1));
    RenumberBalanced(t, Zeros(version + 1));
    if i in ProperNodes(i) {
      ImportedNode(t, version, i);
    }
  }

  /** The history of the one imported version. */
  function OneVersion(i: Node, version: int): History {
    History(version, version, map[version := Some(i)])
  }

  lemma {:induction false} OneVersionGood(db: Db, i: Node, version: int, h: History)
    requires Imports(db, i, version) && Avl(i) && Falling(i) && i !in ProperNodes(i) && DistinctKeys(Nodes(i))
    requires h == OneVersion(i, version)
    ensures GoodHistory(h) && Span(h, version) == Nodes(i)
  {
    RootIsKeyed(db, i, version);
    assert Complete(h);
    assert Span(h, version + 1) == {};
    forall v {:trigger GoodVersion(h, v)} | InSpan(h, v) ensures GoodVersion(h, v) {
      assert v == version;
    }
  }

  /** Where a node of the imported tree is looked for. */
  lemma {:induction false} PlaceOfNode(db: Db, i: Node, version: int, x: Node)
    requires Imports(db, i, version) && x in Nodes(i)
    ensures Kept(db, i, x)
    ensures At(x, version) == if x == i && KeyOf(i).version < version then NodeKey(KeyOf(i).version, 0) else KeyOf(x)
  {
    assert Kept(db, i, x);
  }

  lemma {:induction false} KeysOfImport(db: Db, i: Node, version: int, h: History, k: NodeKey)
    requires Imports(db, i, version) && h == OneVersion(i, version) && Complete(h) && Span(h, version) == Nodes(i)
    requires KeyOf(i).version == version
    ensures k in db <==> k in RootKeys(h, version) + NodeKeys(h, version)
  {
    if k in db && k != RootKey(version) {
      var x :| x in Nodes(i) && x.nk == Some(k);
      PlaceOfNode(db, i, version, x);
      InPlaces(Nodes(i), version, x);
    }
    if k in NodeKeys(h, version) {
      var x := PlaceOf(Nodes(i), version, k);
      PlaceOfNode(db, i, version, x);
    }
  }

  lemma {:induction false} ImportHolds(db: Db, i: Node, version: int, h: History)
    requires Imports(db, i, version) && h == OneVersion(i, version) && GoodHistory(h) && Span(h, version) == Nodes(i)
    requires KeyOf(i).version == version && i !in ProperNodes(i)
    ensures Holds(db, h, version) && Readable(h, version)
  {
    forall k ensures k in db <==> k in RootKeys(h, version) + NodeKeys(h, version) {
      KeysOfImport(db, i, version, h, k);
    }
    forall x {:trigger HoldsNode(db, x, version)} | x in Span(h, version) ensures HoldsNode(db, x, version) {
      PlaceOfNode(db, i, version, x);
    }
    forall v, x {:trigger x in RootProperNodes(h.roots[v])} |
      version <= v <= h.hi && x in RootProperNodes(h.roots[v]) && x.nk.Some?
      ensures At(x, version) == KeyOf(x)
    {
      PlaceOfNode(db, i, version, x);
    }
    PlaceOfNode(db, i, version, i);
  }

  lemma {:induction false} NothingAtZero(db: Db, i: Node, version: int, k: NodeKey)
    requires Imports(db, i, version) && k in db
    ensures k.nonce >= 1
  {
    if k != RootKey(version) {
      var x :| x in Nodes(i) && x.nk == Some(k);
      PlaceOfNode(db, i, version, x);
    }
  }

  /** An older root does not make a sound store: its record is not where that of a pruned version would be. */
  lemma {:induction false} OlderRootDoesNotHold(db: Db, i: Node, version: int, h: History)
    requires Imports(db, i, version) && h == OneVersion(i, version) && KeyOf(i).version < version
    ensures !Holds(db, h, version)
  {
    if NodeKey(KeyOf(i).version, 0) in db {
      NothingAtZero(db, i, version, NodeKey(KeyOf(i).version, 0));
    }
    if Holds(db, h, version) {
      RootFound(db, h, version, version);
    }
  }

  lemma {:induction false} ImportIsSoundFor(db: Db, i: Node, version: int, h: History)
    requires Imports(db, i, version) && Avl(i) && Falling(i) && i !in ProperNodes(i) && DistinctKeys(Nodes(i))
    requires h == OneVersion(i, version)
    ensures GoodHistory(h) && (Holds(db, h, version) && Readable(h, version) <==> KeyOf(i).version == version)
  {
    OneVersionGood(db, i, version, h);
    if KeyOf(i).version == version {
      ImportHolds(db, i, version, h);
    } else {
      OlderRootDoesNotHold(db, i, version, h);
    }
  }

  lemma {:induction false} ImportedDistinct(t: Node, version: nat, i: Node)
    requires Versioned(t, version) && Tapering(t) && i == Imported(t, version)
    ensures DistinctKeys(Nodes(i))
  {
    forall x, y {:trigger x in Nodes(i), y in Nodes(i)} | x in Nodes(i) && y in Nodes(i) && x.nk == y.nk
      ensures x == y
    {
      ImportedKeys(t, version, x, y);
    }
  }

  /** The imported store is that of a history with the one version if and only if the root has that version. */
  lemma {:induction false} ImportIsSoundExactly(t: Node, version: nat, db: Db, i: Node, h: History)
    requires ImportOf(t, version, db) && Falling(t) && i == Imported(t, version) && h == OneVersion(i, version)
    ensures Holds(db, h, version) && Readable(h, version) <==> KeyOf(t).version == version
  {
    ImportLeaves(t, version, db);
    ImportedRoot(t, version, Renumber(t, Zeros(version + 1)).node, i);
    MeasuredTapers(t);
    ImportedDistinct(t, version, i);
    ImportIsSoundFor(db, i, version, h);
  }

  // ----- The first version -----

  lemma {:induction false} RootKeysOfImport(db: Db, i: Node, version: int, v: int)
    requires Imports(db, i, version)
    ensures RootKey(v) in db <==> v == version || v == KeyOf(i).version
  {
    assert i in Nodes(i);
    PlaceOfNode(db, i, version, i);
    if RootKey(v) in db && v != version {
      var x :| x in Nodes(i) && x.nk == Some(RootKey(v));
      PlaceOfNode(db, i, version, x);
    }
  }

  /** The search over first..latest, when nothing below `latest` but `w` looks like a version, comes across `w`. */
  predicate Probed(w: int, first: int, latest: int)
    decreases latest - first
  {
    first < latest &&
    var mid := (latest + first) / 2;
    mid == w || (mid < w && Probed(w, mid + 1, latest))
  }

  lemma {:induction false} SearchEmpty(db: Db, first: int, latest: int)
    requires 0 <= first <= latest && forall v :: first <= v < latest ==> RootKey(v) !in db
    ensures SearchFirst(db, first, latest) == latest
    decreases latest - first
  {
    if first < latest {
      SearchEmpty(db, (latest + first) / 2 + 1, latest);
    }
  }

  lemma {:induction false} SearchProbes(db: Db, w: int, first: int, latest: int)
    requires 0 <= first <= w < latest && forall v :: first <= v < latest ==> (RootKey(v) in db <==> v == w)
    ensures SearchFirst(db, first, latest) == if Probed(w, first, latest) then w else latest
    decreases latest - first
  {
    var mid := (latest + first) / 2;
    if mid == w {
      SearchEmpty(db, first, w);
    } else if mid < w {
      SearchProbes(db, w, mid + 1, latest);
    } else {
      SearchEmpty(db, mid + 1, latest);
    }
  }

  /** The first version of the imported store, as the search finds it. */
  function FirstFound(w: int, version: int): int {
    if w < version && Probed(w, 0, version) then w else version
  }

  lemma {:induction false} FirstOfImport(db: Db, i: Node, version: int)
    requires Imports(db, i, version)
    ensures SearchFirst(db, 0, version) == FirstFound(KeyOf(i).version, version)
  {
    forall v ensures RootKey(v) in db <==> v == version || v == KeyOf(i).version {
      RootKeysOfImport(db, i, version, v);
    }
    if KeyOf(i).version < version {
      SearchProbes(db, KeyOf(i).version, 0, version);
    } else {
      SearchEmpty(db, 0, version);
    }
  }

  // ----- Pruning -----

  /** The version of an older root reads back as the imported version does. */
  lemma {:induction false} OlderReads(db: Db, i: Node, version: int)
    requires Imports(db, i, version)
    ensures GetRoot(db, version) == Ok(Some(KeyOf(i)))
    ensures GetRoot(db, KeyOf(i).version) == GetRoot(db, version)
    ensures ReadVersion(db, KeyOf(i).version) == ReadVersion(db, version)
  {
    assert i in Nodes(i);
    PlaceOfNode(db, i, version, i);
  }

  lemma {:induction false} PruneWithGap(db: Db, w: int, n: int)
    requires w <= n && GetRoot(db, w + 1).Err?
    ensures PruneOps(db, w, n).Err?
  {
    if PruneOps(db, w, n).Ok? {
      PruneSoFar(db, w, w, n);
    }
  }

  /** A prune below the imported version fails if and only if it starts at an older root with a gap behind it. */
  lemma {:induction false} PruneOfImport(db: Db, i: Node, version: int, n: int, f: int)
    requires Imports(db, i, version) && ReadVersion(db, version).Ok? && n < version
    requires f == FirstFound(KeyOf(i).version, version)
    ensures PruneOps(db, f, n).Err? <==> f == KeyOf(i).version <= n && KeyOf(i).version + 1 < version
  {
    var w := KeyOf(i).version;
    OlderReads(db, i, version);
    if f == w <= n {
      RootKeysOfImport(db, i, version, w + 1);
      if w + 1 < version {
        PruneWithGap(db, w, n);
      } else {
        assert PruneOps(db, w, w - 1) == Ok([]);
      }
    }
  }

  // ----- After the commit -----

  /** The tree when the import has been committed: the latest version is known, nothing is loaded yet. */
  function Committed(initialVersion: nat, db: Db, version: int): State {
    State(initialVersion, db, 0, version, None, None, 0)
  }

  lemma {:induction false} LoadImported(c: State, i: Node, f: int)
    requires c.first == 0 && c.latest >= 1 && SearchFirst(c.db, 0, c.latest) == f && 1 <= f <= c.latest
    requires ReadVersion(c.db, c.latest) == Ok(Some(i))
    ensures LoadVersion(c, c.latest) ==
      if f < c.initialVersion then Err(EarlierThanInitial)
      else Ok(State(c.initialVersion, c.db, f, c.latest, Some(i), Some(i), c.latest))
  {
  }

  lemma {:induction false} ImportReads(t: Node, version: nat, db: Db, i: Node)
    requires ImportOf(t, version, db) && i == Imported(t, version)
    ensures ReadVersion(db, version) == Ok(Some(i)) && KeyOf(i).version == KeyOf(t).version && version >= 1
  {
    MeasuredTapers(t);
    ImportCommits(t, version, AddedAll(ImportStart(version), Exported(t), version));
  }

  /**
   * The commit ends with loading the imported version. That succeeds if and only if the first version found is not
   * before the initial one, and the imported tree is loaded.
   */
  lemma {:induction false} CommitLoads(t: Node, version: nat, db: Db, i: Node, initialVersion: nat, f: int)
    requires ImportOf(t, version, db) && i == Imported(t, version) && f == FirstFound(KeyOf(t).version, version)
    ensures LoadVersion(Committed(initialVersion, db, version), version) ==
      if f < initialVersion then Err(EarlierThanInitial)
      else Ok(State(initialVersion, db, f, version, Some(i), Some(i), version))
  {
    ImportReads(t, version, db, i);
    ImportLeaves(t, version, db);
    FirstOfImport(db, i, version);
    LoadImported(Committed(initialVersion, db, version), i, f);
  }

  /** A tree imported with its root's own version is in a sound state, from which every operation goes on. */
  lemma {:induction false} ImportedStateSound(t: Node, version: nat, db: Db, i: Node, h: History, s: State)
    requires ImportOf(t, version, db) && Falling(t) && KeyOf(t).version == version
    requires i == Imported(t, version) && h == OneVersion(i, version) && s.initialVersion <= version
    requires s == State(s.initialVersion, db, version, version, Some(i), Some(i), version)
    ensures Inv(s, h)
  {
    ImportReads(t, version, db, i);
    ImportIsSoundExactly(t, version, db, i, h);
    ImportedRoot(t, version, Renumber(t, Zeros(version + 1)).node, i);
  }

  lemma {:induction false} PruneImported(s: State, i: Node, n: int, f: int)
    requires Imports(s.db, i, s.latest) && ReadVersion(s.db, s.latest).Ok? && n < s.latest && s.latest >= 1
    requires f == FirstFound(KeyOf(i).version, s.latest) && s.first == f && f >= 1
    ensures Prune(s, n).Err? <==> f == KeyOf(i).version <= n && KeyOf(i).version + 1 < s.latest
  {
    PruneOfImport(s.db, i, s.latest, n, f);
  }

  /**
   * After an import, pruning below the imported version fails if and only if the root is older than the version before
   * it, the search for the first version comes across the root's record, and the prune reaches it.
   */
  lemma {:induction false} ImportPrunesExactly(t: Node, version: nat, db: Db, i: Node, s: State, n: int)
    requires ImportOf(t, version, db) && i == Imported(t, version) && n < version
    requires s == State(s.initialVersion, db, FirstFound(KeyOf(t).version, version), version, Some(i), Some(i), version)
    ensures Prune(s, n).Err? <==>
      KeyOf(t).version <= n && KeyOf(t).version + 1 < version && Probed(KeyOf(t).version, 0, version)
  {
    ImportReads(t, version, db, i);
    ImportLeaves(t, version, db);
    PruneImported(s, i, n, FirstFound(KeyOf(t).version, version));
  }

  /** A tree whose root has version 5, imported as version 10: no version from 5 to 9 can be pruned any more. */
  lemma {:induction false} OlderRootBlocksPruning(t: Node, db: Db, i: Node, s: State, n: int)
    requires ImportOf(t, 10, db) && KeyOf(t).version == 5 && i == Imported(t, 10) && 5 <= n <= 9
    requires s == State(0, db, 5, 10, Some(i), Some(i), 10)
    ensures LoadVersion(Committed(0, db, 10), 10) == Ok(s) && Prune(s, n).Err?
  {
    assert FirstFound(5, 10) == 5;
    CommitLoads(t, 10, db, i, 0, 5);
    ImportPrunesExactly(t, 10, db, i, s, n);
  }
}
