/**
 * The fast index: one entry per key of the latest saved tree, stamped with a version, and an overlay of unsaved
 * additions and removals. Reads that take the fast path agree with the tree, for the working tree and for every
 * retained version.
 */
module FastIndex {
  import opened Base
  import opened Trees
  import opened Update
  import opened Store
  import opened Layout
  import opened Saving
  import opened Pruning
  import opened Rewinding
  import opened Machine
  import opened Runs
  import Lookup

  datatype FastNode = FastNode(version: int, value: Bytes)

  /** `liveVersion` is the version the index was last written for; without one the index is not in use. */
  datatype FastState = FastState(
    tree: State, skip: bool,
    additions: map<Bytes, FastNode>, removals: set<Bytes>,
    fast: map<Bytes, FastNode>, liveVersion: Option<int>)

  // ----- Reading -----

  /** The plain way: walk down the tree. */
  function PlainGet(root: Option<Node>, key: Bytes): Option<Bytes> {
    if root.None? then None else Lookup.Get(root.value, key).value
  }

  predicate HasFastNode(f: FastState, key: Bytes) {
    f.liveVersion.Some? && key != [] && key in f.fast
  }

  /** `ImmutableTree.Get`: `GetFastNode` fails without an index and on the empty key. */
  function ImmutableGet(f: FastState, root: Option<Node>, version: int, key: Bytes): Option<Bytes> {
    if root.None? then None
    else if f.skip || f.liveVersion.None? || key == [] then PlainGet(root, key)
    else if key !in f.fast then if version == f.tree.latest then None else PlainGet(root, key)
    else if f.fast[key].version <= version then Some(f.fast[key].value)
    else PlainGet(root, key)
  }

  /** `MutableTree.Get`: the overlay first. */
  function Get(f: FastState, key: Bytes): Option<Bytes> {
    if f.tree.root.None? then None
    else if !f.skip && key in f.additions then Some(f.additions[key].value)
    else if !f.skip && key in f.removals then None
    else ImmutableGet(f, f.tree.root, f.tree.version, key)
  }

  /** `IsFastCacheEnabled` for the mutable tree. */
  ghost predicate Enabled(f: FastState) {
    !f.skip && f.tree.version == LatestVersion(f.tree) && f.liveVersion.Some?
  }

  /** `GetVersioned`: here a failing `GetFastNode` counts as a missing entry. */
  ghost function GetVersioned(f: FastState, key: Bytes, version: int): Option<Bytes> {
    var s := Searched(f.tree);
    if !VersionExists(s, version) then None
    else if Enabled(f) && !HasFastNode(f, key) && version == s.latest then None
    else if Enabled(f) && HasFastNode(f, key) && f.fast[key].version <= version then Some(f.fast[key].value)
    else match ReadVersion(s.db, version)
      case Err(_) => None
      case Ok(root) => ImmutableGet(f.(tree := s), root, version, key)
  }

  // ----- The operations -----

  function FastOpened(initialVersion: nat, skip: bool): FastState {
    FastState(Opened(initialVersion, map[]), skip, map[], {}, map[], None)
  }

  function Rebuilt(t: State): map<Bytes, FastNode> {
    map k | k in RootModel(t.root) :: FastNode(t.version, RootModel(t.root)[k])
  }

  /** `enableFastStorageAndCommitIfNotEnabled`: rebuild the index from the loaded tree unless it is up to date. */
  ghost function Enable(f: FastState): FastState {
    var t, latest := f.tree.(latest := Known(f.tree)), LatestVersion(f.tree);
    if f.skip then f
    else if f.liveVersion == Some(latest) then f.(tree := t)
    else f.(tree := t, fast := Rebuilt(t), liveVersion := Some(latest))
  }

  ghost function FastNext(f: FastState, op: Op): FastState {
    var t := Next(f.tree, op);
    match op
    case Set(key, value) =>
      if f.skip then f.(tree := t)
      else f.(tree := t, additions := f.additions[key := FastNode(f.tree.version + 1, value)],
              removals := f.removals - {key})
    case Remove(key) =>
      var r := Update.Remove(f.tree.root, key);
      if f.skip || r.Err? || !r.value.removed then f.(tree := t)
      else f.(tree := t, additions := f.additions - {key}, removals := f.removals + {key})
    case Rollback => if f.skip then f.(tree := t) else f.(tree := t, additions := map[], removals := {})
    case SaveVersion =>
      if f.skip || Save(f.tree).Err? then f.(tree := t)
      else f.(tree := t, additions := map[], removals := {}, fast := (f.fast + f.additions) - f.removals,
              liveVersion := Some(t.version))
    case DeleteVersionsTo(_) => f.(tree := t)
    case LoadVersionForOverwriting(target) =>
      var u := LoadVersion(f.tree, target);
      if u.Err? then f.(tree := t) else Enable(Enable(f.(tree := u.value)).(tree := t))
    case Reopen =>
      var o := f.(tree := t, additions := map[], removals := {});
      if LoadVersion(Opened(f.tree.initialVersion, f.tree.db), 0).Ok? then Enable(o) else o
  }

  // ----- What every step keeps -----

  predicate Clean(f: FastState) {
    f.additions == map[] && f.removals == {}
  }

  /** The overlay is the difference between the last saved map and the working map. */
  ghost predicate Overlaid(f: FastState, last: map<Bytes, Bytes>, work: map<Bytes, Bytes>) {
    && (forall k :: k in f.additions ==> k in work && work[k] == f.additions[k].value && k !in f.removals)
    && (forall k :: k in f.additions ==> f.additions[k].version == f.tree.version + 1)
    && (forall k :: k in f.removals ==> k !in work)
    && (forall k :: k !in f.additions && k !in f.removals ==>
          (k in work <==> k in last) && (k in work ==> work[k] == last[k]))
  }

  /** The index holds the last saved map, and an entry's value is right from its stamp on. */
  ghost predicate Indexed(fast: map<Bytes, FastNode>, h: History) {
    && fast.Keys == RootModel(Last(h)).Keys
    && (forall k :: k in fast ==> fast[k].value == RootModel(Last(h))[k] && fast[k].version <= h.hi)
    && (forall k, v {:trigger RootModel(h.roots[v]), fast[k]} :: k in fast && v in h.roots && fast[k].version <= v ==>
          k in RootModel(h.roots[v]) && RootModel(h.roots[v])[k] == fast[k].value)
  }

  ghost predicate FastInv(f: FastState, h: History) {
    && Inv(f.tree, h)
    && (!f.skip ==>
          && Overlaid(f, RootModel(Last(h)), RootModel(f.tree.root))
          && Indexed(f.fast, h)
          && (f.liveVersion.Some? ==> f.liveVersion.value == (if IsEmpty(h) then 0 else h.hi)))
  }

  /** Loading a version does not clear the overlay, so it must be empty by then. */
  ghost predicate FastLegal(f: FastState, h: History, op: Op)
    requires Complete(h)
  {
    Legal(f.tree, h, op) && (op.LoadVersionForOverwriting? ==> f.skip || Clean(f))
  }

  // ----- Reads agree -----

  lemma {:induction false} PlainIsModel(root: Option<Node>, key: Bytes)
    requires AvlRoot(root)
    ensures PlainGet(root, key) == Lookup.Find(RootModel(root), key)
  {
    if root.Some? {
      Lookup.GetCorrect(root.value, key);
    }
  }

  lemma {:induction false} OldVersionAgrees(f: FastState, h: History, root: Option<Node>, v: int, key: Bytes)
    requires FastInv(f, h) && v in h.roots && AvlRoot(root) && RootModel(root) == RootModel(h.roots[v])
    ensures ImmutableGet(f, root, v, key) == Lookup.Find(RootModel(h.roots[v]), key)
  {
    PlainIsModel(root, key);
    assert InSpan(h, v);
    if !f.skip && key !in f.fast && v == f.tree.latest {
      assert v == h.hi;
    }
  }

  /** `Get` on the working tree is the plain lookup. */
  lemma {:induction false} GetAgrees(f: FastState, h: History, key: Bytes)
    requires FastInv(f, h)
    ensures Get(f, key) == PlainGet(f.tree.root, key) == Lookup.Find(RootModel(f.tree.root), key)
  {
    PlainIsModel(f.tree.root, key);
  }

  lemma {:induction false} ReadRoot(s: State, h: History, v: int)
    requires Inv(s, h) && v in h.roots
    ensures ReadVersion(s.db, v).Ok?
    ensures AvlRoot(ReadVersion(s.db, v).value) && RootModel(ReadVersion(s.db, v).value) == RootModel(h.roots[v])
  {
    assert InSpan(h, v);
    VersionReadsBack(s.db, h, h.lo, v);
    assert GoodVersion(h, v);
    if h.roots[v].Some? {
      RekeyedRoot(h.roots[v].value, At(h.roots[v].value, h.lo));
    }
  }

  /** `Get` on any retained version is the plain lookup in it. */
  lemma {:induction false} GetImmutableAgrees(f: FastState, h: History, v: int, key: Bytes)
    requires FastInv(f, h) && v in h.roots
    ensures ReadVersion(f.tree.db, v).Ok?
    ensures
      var root := ReadVersion(f.tree.db, v).value;
      ImmutableGet(f, root, v, key) == PlainGet(root, key) == Lookup.Find(RootModel(h.roots[v]), key)
  {
    ReadRoot(f.tree, h, v);
    var root := ReadVersion(f.tree.db, v).value;
    OldVersionAgrees(f, h, root, v, key);
    PlainIsModel(root, key);
  }

  /**
   * `GetVersioned` is the plain lookup, except for the empty key in the latest version: with the index in use it
   * is never found there.
   */
  lemma {:induction false} GetVersionedAgrees(f: FastState, h: History, v: int, key: Bytes)
    requires FastInv(f, h) && v in h.roots
    ensures GetVersioned(f, key, v) == Lookup.Find(RootModel(h.roots[v]), key) <==>
      !(key == [] && v == h.hi && Enabled(f) && key in RootModel(h.roots[v]))
  {
    assert InSpan(h, v);
    SearchFinds(f.tree, h);
    SearchFinds(Searched(f.tree), h);
    var g := f.(tree := Searched(f.tree));
    assert FastInv(g, h);
    GetImmutableAgrees(g, h, v, key);
  }

  /** The index answers for the latest version: the entry of each of its keys has a stamp that is not newer. */
  lemma {:induction false} LatestIsIndexed(f: FastState, h: History, key: Bytes)
    requires FastInv(f, h) && !f.skip && h.hi in h.roots
    ensures key in f.fast <==> key in RootModel(h.roots[h.hi])
    ensures key in f.fast ==> f.fast[key].version <= h.hi && f.fast[key].value == RootModel(h.roots[h.hi])[key]
  {
    assert InSpan(h, h.hi);
  }

  /** In a version that is not retained nothing is found, whatever the index holds. */
  lemma {:induction false} GetVersionedNothing(f: FastState, h: History, v: int, key: Bytes)
    requires FastInv(f, h) && v !in h.roots
    ensures GetVersioned(f, key, v) == None
  {
    SearchFinds(f.tree, h);
    ExistsExactly(Searched(f.tree), h, v);
    NotRetained(f.tree, h, v);
  }

  // ----- Every step keeps the invariant -----

  lemma {:induction false} FastSet(f: FastState, h: History, key: Bytes, value: Bytes)
    requires FastInv(f, h)
    ensures FastInv(FastNext(f, Set(key, value)), h)
  {
    SetKeepsInv(f.tree, h, key, value);
  }

  lemma {:induction false} FastRemove(f: FastState, h: History, key: Bytes)
    requires FastInv(f, h)
    ensures FastInv(FastNext(f, Remove(key)), h)
  {
    RemoveKeepsInv(f.tree, h, key);
    RemoveIsMapDelete(f.tree.root, key);
  }

  lemma {:induction false} FastRollback(f: FastState, h: History)
    requires FastInv(f, h)
    ensures FastInv(FastNext(f, Rollback), h)
  {
    RollbackKeepsInv(f.tree, h);
  }

  lemma {:induction false} IndexSaved(f: FastState, h: History, r: Option<Node>)
    requires GoodHistory(h) && h.lo <= h.hi + 1 && Indexed(f.fast, h)
    requires Overlaid(f, RootModel(Last(h)), RootModel(r))
    requires f.tree.version <= h.hi && (IsEmpty(h) || f.tree.version == h.hi)
    ensures Indexed((f.fast + f.additions) - f.removals, Extend(h, r))
  {
    var fast, h' := (f.fast + f.additions) - f.removals, Extend(h, r);
    assert Last(h') == r;
    assert fast.Keys == RootModel(r).Keys;
    forall k, v {:trigger RootModel(h'.roots[v]), fast[k]} | k in fast && v in h'.roots && fast[k].version <= v
      ensures k in RootModel(h'.roots[v]) && RootModel(h'.roots[v])[k] == fast[k].value
    {
      if v != h.hi + 1 {
        assert InSpan(h, v) && h'.roots[v] == h.roots[v];
        assert k !in f.additions && f.fast[k] == fast[k];
      }
    }
  }

  /** A state with nothing unsaved and an index for the latest version. */
  lemma {:induction false} Synced(t: State, h: History, skip: bool, fast: map<Bytes, FastNode>)
    requires Inv(t, h) && !IsEmpty(h) && RootModel(t.root) == RootModel(Last(h)) && Indexed(fast, h)
    ensures FastInv(FastState(t, skip, map[], {}, fast, Some(t.version)), h)
  {
  }

  lemma {:induction false} FastSaveGives(f: FastState, h: History)
    requires FastInv(f, h) && FastLegal(f, h, SaveVersion)
    ensures
      var t, h' := Next(f.tree, SaveVersion), NextHistory(h, f.tree, SaveVersion);
      && Inv(t, h') && !IsEmpty(h') && h' == Extend(h, Last(h'))
      && RootModel(t.root) == RootModel(Last(h')) == RootModel(f.tree.root)
      && FastNext(f, SaveVersion) ==
           if f.skip then f.(tree := t)
           else FastState(t, f.skip, map[], {}, (f.fast + f.additions) - f.removals, Some(t.version))
  {
    SaveKeepsInv(f.tree, h);
  }

  lemma {:induction false} SavedInSync(f: FastState, h: History, t: State, r: Option<Node>)
    requires FastInv(f, h) && !f.skip && Inv(t, Extend(h, r))
    requires RootModel(t.root) == RootModel(r) == RootModel(f.tree.root)
    ensures FastInv(FastState(t, f.skip, map[], {}, (f.fast + f.additions) - f.removals, Some(t.version)), Extend(h, r))
  {
    IndexSaved(f, h, r);
    Synced(t, Extend(h, r), f.skip, (f.fast + f.additions) - f.removals);
  }

  lemma {:induction false} FastSave(f: FastState, h: History)
    requires FastInv(f, h) && FastLegal(f, h, SaveVersion)
    ensures FastInv(FastNext(f, SaveVersion), NextHistory(h, f.tree, SaveVersion))
  {
    FastSaveGives(f, h);
    if !f.skip {
      SavedInSync(f, h, Next(f.tree, SaveVersion), Last(NextHistory(h, f.tree, SaveVersion)));
    }
  }

  lemma {:induction false} IndexTrimmed(fast: map<Bytes, FastNode>, h: History, lo: int)
    requires Complete(h) && Indexed(fast, h) && h.lo <= lo <= h.hi
    ensures Indexed(fast, Trim(h, lo))
  {
    var t := Trim(h, lo);
    assert InSpan(h, h.hi);
    forall k, v {:trigger RootModel(t.roots[v]), fast[k]} | k in fast && v in t.roots && fast[k].version <= v
      ensures k in RootModel(t.roots[v]) && RootModel(t.roots[v])[k] == fast[k].value
    {
      assert t.roots[v] == h.roots[v];
    }
  }

  lemma {:induction false} SameTree(f: FastState, h: History, t: State, h': History)
    requires FastInv(f, h) && Inv(t, h') && t.root == f.tree.root && t.version == f.tree.version
    requires RootModel(Last(h')) == RootModel(Last(h)) && (!f.skip ==> Indexed(f.fast, h'))
    requires (if IsEmpty(h') then 0 else h'.hi) == (if IsEmpty(h) then 0 else h.hi)
    ensures FastInv(f.(tree := t), h')
  {
  }

  lemma {:induction false} FastPrune(f: FastState, h: History, to: int)
    requires FastInv(f, h) && FastLegal(f, h, DeleteVersionsTo(to))
    ensures FastInv(FastNext(f, DeleteVersionsTo(to)), NextHistory(h, f.tree, DeleteVersionsTo(to)))
  {
    PruneKeepsInv(f.tree, h, to);
    var h' := NextHistory(h, f.tree, DeleteVersionsTo(to));
    if !f.skip && h.lo <= to < h.hi {
      IndexTrimmed(f.fast, h, to + 1);
    }
    SameTree(f, h, Next(f.tree, DeleteVersionsTo(to)), h');
  }

  lemma {:induction false} RebuiltIndexes(t: State, h: History)
    requires Inv(t, h) && RootModel(t.root) == RootModel(Last(h))
    ensures Indexed(Rebuilt(t), h)
  {
    forall v | v in h.roots && t.version <= v ensures Last(h) == h.roots[v] {
      assert InSpan(h, v);
    }
  }

  /** Bringing the index up to date. */
  lemma {:induction false} EnableIndexes(f: FastState, h: History)
    requires Inv(f.tree, h) && !f.skip && RootModel(f.tree.root) == RootModel(Last(h))
    requires f.liveVersion == Some(if IsEmpty(h) then 0 else h.hi) ==> Indexed(f.fast, h)
    ensures Inv(Enable(f).tree, h) && Indexed(Enable(f).fast, h)
    ensures Enable(f).liveVersion == Some(if IsEmpty(h) then 0 else h.hi)
  {
    SearchFinds(f.tree, h);
    RebuiltIndexes(f.tree, h);
    assert Rebuilt(f.tree.(latest := Known(f.tree))) == Rebuilt(f.tree);
  }

  /** ... when nothing is unsaved. */
  lemma {:induction false} EnableKeeps(f: FastState, h: History)
    requires Inv(f.tree, h) && (!f.skip ==> Clean(f)) && RootModel(f.tree.root) == RootModel(Last(h))
    requires !f.skip && f.liveVersion == Some(if IsEmpty(h) then 0 else h.hi) ==> Indexed(f.fast, h)
    ensures FastInv(Enable(f), h)
  {
    if !f.skip {
      EnableIndexes(f, h);
    }
  }

  lemma {:induction false} ReopenedIndex(f: FastState, h: History, t: State, g: FastState)
    requires FastInv(f, h) && Inv(t, h) && RootModel(t.root) == RootModel(Last(h))
    requires g == Enable(f.(tree := t, additions := map[], removals := {}))
    ensures FastInv(g, h)
  {
    EnableKeeps(f.(tree := t, additions := map[], removals := {}), h);
  }

  lemma {:induction false} FastReopen(f: FastState, h: History)
    requires FastInv(f, h)
    ensures FastInv(FastNext(f, Reopen), h)
  {
    ReopenKeepsInv(f.tree, h);
    ReopenedIndex(f, h, Next(f.tree, Reopen), FastNext(f, Reopen));
  }

  /** An overwriting load that fails, or finds no version, changes nothing. */
  lemma {:induction false} FastOverwriteNothing(f: FastState, h: History, target: int)
    requires FastInv(f, h) && FastLegal(f, h, LoadVersionForOverwriting(target))
    requires LoadVersion(f.tree, target).Err?
    ensures FastInv(FastNext(f, LoadVersionForOverwriting(target)), h)
  {
    SearchFinds(f.tree, h);
    SameTree(f, h, Searched(f.tree), h);
  }

  /** What the index is after the load and before the cut. */
  lemma {:induction false} EnableLoaded(f: FastState, h: History, u: State)
    requires FastInv(f, h) && !f.skip
    requires LatestVersion(u) == (if IsEmpty(h) then 0 else h.hi)
    requires u.version == h.hi || IsEmpty(h) ==> Inv(u, h) && RootModel(u.root) == RootModel(Last(h))
    ensures
      var g := Enable(f.(tree := u));
      && g.skip == f.skip && g.additions == f.additions && g.removals == f.removals
      && g.liveVersion == Some(if IsEmpty(h) then 0 else h.hi)
      && (u.version == h.hi || IsEmpty(h) ==> Indexed(g.fast, h))
  {
    if u.version == h.hi || IsEmpty(h) {
      EnableIndexes(f.(tree := u), h);
    }
  }

  /** What an overwriting load that succeeds has loaded before it cuts. */
  lemma {:induction false} Loaded(f: FastState, h: History, target: int)
    requires FastInv(f, h) && !f.skip && Legal(f.tree, h, LoadVersionForOverwriting(target))
    requires IsEmpty(h) ==> Clean(f)
    requires LoadVersion(f.tree, target).Ok?
    ensures
      var u := LoadVersion(f.tree, target).value;
      && LatestVersion(u) == (if IsEmpty(h) then 0 else h.hi)
      && (u.version == h.hi || IsEmpty(h) ==> Inv(u, h) && RootModel(u.root) == RootModel(Last(h)))
      && (!IsEmpty(h) ==> target <= 0 || h.lo <= target <= h.hi)
      && (!IsEmpty(h) ==> u.version == if target <= 0 then h.hi else target)
      && (IsEmpty(h) ==> target <= 0)
  {
    SearchFinds(f.tree, h);
    if IsEmpty(h) {
      SearchFinds(Searched(f.tree), h);
      assert RootModel(f.tree.root) == map[];
    } else {
      LoadKeepsInv(f.tree, h, target);
    }
  }

  lemma {:induction false} CutNothing(h: History)
    requires Complete(h) && !IsEmpty(h)
    ensures Cut(h, h.hi) == h
  {
    forall v | v in h.roots ensures v <= h.hi {
      assert InSpan(h, v);
    }
    assert (map v | v in h.roots && v <= h.hi :: h.roots[v]) == h.roots;
  }

  lemma {:induction false} OverwrittenModel(f: FastState, h: History, target: int)
    requires FastInv(f, h) && !f.skip && Legal(f.tree, h, LoadVersionForOverwriting(target))
    requires IsEmpty(h) ==> Clean(f)
    requires IsEmpty(h) || target <= 0 || h.lo <= target <= h.hi
    ensures
      var t := Next(f.tree, LoadVersionForOverwriting(target));
      var h' := NextHistory(h, f.tree, LoadVersionForOverwriting(target));
      Inv(t, h') && RootModel(t.root) == RootModel(Last(h'))
  {
    OverwriteKeepsInv(f.tree, h, target);
    if IsEmpty(h) {
      assert RootModel(f.tree.root) == map[];
    } else {
      CutNothing(h);
      assert InSpan(h, h.hi);
    }
  }

  /** The index after an overwriting load that succeeds; the overlay is left as it was. */
  lemma {:induction false} OverwrittenIndex(f: FastState, h: History, target: int)
    requires FastInv(f, h) && !f.skip && Legal(f.tree, h, LoadVersionForOverwriting(target))
    requires LoadVersion(f.tree, target).Ok? && (IsEmpty(h) ==> Clean(f))
    ensures
      var g := FastNext(f, LoadVersionForOverwriting(target));
      var h' := NextHistory(h, f.tree, LoadVersionForOverwriting(target));
      && Inv(g.tree, h') && !g.skip && Indexed(g.fast, h') && RootModel(g.tree.root) == RootModel(Last(h'))
      && g.liveVersion == Some(if IsEmpty(h') then 0 else h'.hi)
      && g.additions == f.additions && g.removals == f.removals
  {
    Loaded(f, h, target);
    OverwrittenModel(f, h, target);
    EnableTwice(f, h, target, LoadVersion(f.tree, target).value, Next(f.tree, LoadVersionForOverwriting(target)));
  }

  lemma {:induction false} EnableTwice(f: FastState, h: History, target: int, u: State, t: State)
    requires FastInv(f, h) && !f.skip
    requires LatestVersion(u) == (if IsEmpty(h) then 0 else h.hi)
    requires u.version == h.hi || IsEmpty(h) ==> Inv(u, h) && RootModel(u.root) == RootModel(Last(h))
    requires !IsEmpty(h) ==>
      (target <= 0 || h.lo <= target <= h.hi) && u.version == if target <= 0 then h.hi else target
    requires IsEmpty(h) ==> target <= 0
    requires var h' := NextHistory(h, f.tree, LoadVersionForOverwriting(target));
      Inv(t, h') && RootModel(t.root) == RootModel(Last(h'))
    ensures
      var g, h' := Enable(Enable(f.(tree := u)).(tree := t)), NextHistory(h, f.tree, LoadVersionForOverwriting(target));
      && Inv(g.tree, h') && !g.skip && Indexed(g.fast, h') && RootModel(g.tree.root) == RootModel(Last(h'))
      && g.liveVersion == Some(if IsEmpty(h') then 0 else h'.hi)
      && g.additions == f.additions && g.removals == f.removals
  {
    EnableLoaded(f, h, u);
    EnableCut(f, h, Enable(f.(tree := u)), target, t, u.version);
  }

  lemma {:induction false} EnableCut(f: FastState, h: History, g: FastState, target: int, t: State, loaded: int)
    requires GoodHistory(h) && !g.skip && h.lo >= 1
    requires g.liveVersion == Some(if IsEmpty(h) then 0 else h.hi)
    requires loaded == h.hi || IsEmpty(h) ==> Indexed(g.fast, h)
    requires !IsEmpty(h) ==> (target <= 0 || h.lo <= target <= h.hi) && loaded == if target <= 0 then h.hi else target
    requires IsEmpty(h) ==> target <= 0
    requires var h' := NextHistory(h, f.tree, LoadVersionForOverwriting(target));
      Inv(t, h') && RootModel(t.root) == RootModel(Last(h'))
    ensures
      var e, h' := Enable(g.(tree := t)), NextHistory(h, f.tree, LoadVersionForOverwriting(target));
      && Inv(e.tree, h') && Indexed(e.fast, h') && RootModel(e.tree.root) == RootModel(Last(h'))
      && e.liveVersion == Some(if IsEmpty(h') then 0 else h'.hi)
  {
    if !IsEmpty(h) {
      CutNothing(h);
    }
    EnableIndexes(g.(tree := t), NextHistory(h, f.tree, LoadVersionForOverwriting(target)));
  }

  lemma {:induction false} FastOverwriteLoaded(f: FastState, h: History, target: int)
    requires FastInv(f, h) && !f.skip && FastLegal(f, h, LoadVersionForOverwriting(target))
    requires LoadVersion(f.tree, target).Ok?
    ensures FastInv(FastNext(f, LoadVersionForOverwriting(target)),
                    NextHistory(h, f.tree, LoadVersionForOverwriting(target)))
  {
    OverwrittenIndex(f, h, target);
  }

  /** The unsaved change of a key, if any, is in the map already. */
  predicate KeyAgrees(f: FastState, m: map<Bytes, Bytes>, key: Bytes) {
    if key in f.additions then key in m && m[key] == f.additions[key].value else key in f.removals ==> key !in m
  }

  lemma {:induction false} ModelNotEmpty(t: Node)
    ensures Model(t) != map[]
  {
    if t.Inner? {
      ModelNotEmpty(t.left);
      var k :| k in Model(t.left);
      assert k in Model(t);
    } else {
      assert t.key in Model(t);
    }
  }

  lemma {:induction false} StaleRead(g: FastState, h: History, key: Bytes)
    requires Inv(g.tree, h) && !g.skip && Indexed(g.fast, h) && RootModel(g.tree.root) == RootModel(Last(h))
    requires g.liveVersion == Some(if IsEmpty(h) then 0 else h.hi)
    ensures Get(g, key) == PlainGet(g.tree.root, key) <==>
      RootModel(g.tree.root) == map[] || KeyAgrees(g, RootModel(g.tree.root), key)
  {
    PlainIsModel(g.tree.root, key);
    if g.tree.root.Some? {
      ModelNotEmpty(g.tree.root.value);
    }
  }

  lemma {:induction false} StaleKnown(f: FastState, g: FastState, h: History, m: map<Bytes, Bytes>, key: Bytes)
    requires Inv(g.tree, h) && !g.skip && Indexed(g.fast, h) && RootModel(g.tree.root) == RootModel(Last(h))
    requires g.liveVersion == Some(if IsEmpty(h) then 0 else h.hi)
    requires g.additions == f.additions && g.removals == f.removals && RootModel(g.tree.root) == m
    ensures Get(g, key) == PlainGet(g.tree.root, key) <==> m == map[] || KeyAgrees(f, m, key)
  {
    StaleRead(g, h, key);
  }

  lemma {:induction false} OverwrittenRoot(f: FastState, h: History, target: int)
    requires FastInv(f, h) && !f.skip && !IsEmpty(h) && (target < -1 || h.lo <= target <= h.hi)
    ensures LoadVersion(f.tree, target).Ok?
    ensures RootModel(FastNext(f, LoadVersionForOverwriting(target)).tree.root) ==
      RootModel(h.roots[if target <= 0 then h.hi else target])
  {
    LoadKeepsInv(f.tree, h, target);
    OverwriteKeepsInv(f.tree, h, target);
    FastTreeRoot(f, LoadVersionForOverwriting(target));
  }

  /**
   * Loading over unsaved changes leaves the overlay in place: the read of a key in the loaded tree is right if and
   * only if that tree is empty or already has the unsaved change of the key.
   */
  lemma {:induction false} StaleOverlay(f: FastState, h: History, target: int, key: Bytes)
    requires FastInv(f, h) && !f.skip && !IsEmpty(h) && (target < -1 || h.lo <= target <= h.hi)
    ensures
      var g := FastNext(f, LoadVersionForOverwriting(target));
      var m := RootModel(h.roots[if target <= 0 then h.hi else target]);
      Get(g, key) == PlainGet(g.tree.root, key) <==> m == map[] || KeyAgrees(f, m, key)
  {
    OverwrittenRoot(f, h, target);
    OverwrittenIndex(f, h, target);
    var m := RootModel(h.roots[if target <= 0 then h.hi else target]);
    StaleKnown(f, FastNext(f, LoadVersionForOverwriting(target)),
               NextHistory(h, f.tree, LoadVersionForOverwriting(target)), m, key);
  }

  lemma {:induction false} EnableKeepsRoot(f: FastState)
    ensures Enable(f).tree.root == f.tree.root
  {
  }

  lemma {:induction false} FastTreeRoot(f: FastState, op: Op)
    ensures FastNext(f, op).tree.root == Next(f.tree, op).root
  {
    var t := Next(f.tree, op);
    if op.LoadVersionForOverwriting? {
      var u := LoadVersion(f.tree, op.target);
      if u.Ok? {
        EnableKeepsRoot(Enable(f.(tree := u.value)).(tree := t));
      }
    } else if op.Reopen? {
      EnableKeepsRoot(f.(tree := t, additions := map[], removals := {}));
    }
  }

  lemma {:induction false} FastOverwrite(f: FastState, h: History, target: int)
    requires FastInv(f, h) && FastLegal(f, h, LoadVersionForOverwriting(target))
    ensures FastInv(FastNext(f, LoadVersionForOverwriting(target)),
                    NextHistory(h, f.tree, LoadVersionForOverwriting(target)))
  {
    OverwriteKeepsInv(f.tree, h, target);
    if LoadVersion(f.tree, target).Ok? && !f.skip {
      FastOverwriteLoaded(f, h, target);
    } else if !f.skip {
      FastOverwriteFails(f, h, target);
    }
  }

  lemma {:induction false} FastOverwriteFails(f: FastState, h: History, target: int)
    requires FastInv(f, h) && FastLegal(f, h, LoadVersionForOverwriting(target))
    requires LoadVersion(f.tree, target).Err?
    ensures FastInv(FastNext(f, LoadVersionForOverwriting(target)),
                    NextHistory(h, f.tree, LoadVersionForOverwriting(target)))
  {
    FastOverwriteNothing(f, h, target);
    if h.lo <= target <= h.hi {
      LoadKeepsInv(f.tree, h, target);
    }
  }

  lemma {:induction false} FastNextKeepsInv(f: FastState, h: History, op: Op)
    requires FastInv(f, h) && FastLegal(f, h, op)
    ensures FastInv(FastNext(f, op), NextHistory(h, f.tree, op))
  {
    match op
    case Set(key, value) => FastSet(f, h, key, value);
    case Remove(key) => FastRemove(f, h, key);
    case Rollback => FastRollback(f, h);
    case SaveVersion => FastSave(f, h);
    case DeleteVersionsTo(to) => FastPrune(f, h, to);
    case LoadVersionForOverwriting(target) => FastOverwrite(f, h, target);
    case Reopen => FastReopen(f, h);
  }

  // ----- Runs -----

  datatype FastConfig = FastConfig(f: FastState, h: History)

  ghost function FastRun(initialVersion: nat, skip: bool, ops: seq<Op>): FastConfig {
    if ops == [] then FastConfig(FastOpened(initialVersion, skip), RunOf(initialVersion, []).h)
    else
      var c := FastRun(initialVersion, skip, ops[..|ops| - 1]);
      FastConfig(FastNext(c.f, ops[|ops| - 1]), NextHistory(c.h, c.f.tree, ops[|ops| - 1]))
  }

  ghost predicate LegalFastRun(initialVersion: nat, skip: bool, ops: seq<Op>) {
    ops != [] ==>
      var c := FastRun(initialVersion, skip, ops[..|ops| - 1]);
      LegalFastRun(initialVersion, skip, ops[..|ops| - 1]) && Complete(c.h) && FastLegal(c.f, c.h, ops[|ops| - 1])
  }

  lemma {:induction false} FastRunInv(initialVersion: nat, skip: bool, ops: seq<Op>)
    requires LegalFastRun(initialVersion, skip, ops)
    ensures var c := FastRun(initialVersion, skip, ops); FastInv(c.f, c.h)
  {
    if ops == [] {
      StartInv(initialVersion);
    } else {
      FastRunInv(initialVersion, skip, ops[..|ops| - 1]);
      var c := FastRun(initialVersion, skip, ops[..|ops| - 1]);
      FastNextKeepsInv(c.f, c.h, ops[|ops| - 1]);
    }
  }

  lemma {:induction false} FastRunSpec(initialVersion: nat, skip: bool, ops: seq<Op>)
    requires LegalFastRun(initialVersion, skip, ops)
    ensures var c := FastRun(initialVersion, skip, ops); SpecOf(c.f.tree, c.h) == SpecRun(initialVersion, ops)
  {
    if ops == [] {
      StartInv(initialVersion);
    } else {
      var front, op := ops[..|ops| - 1], ops[|ops| - 1];
      FastRunSpec(initialVersion, skip, front);
      FastRunInv(initialVersion, skip, front);
      var c := FastRun(initialVersion, skip, front);
      StepRefines(c.f.tree, c.h, op);
      FastTreeRoot(c.f, op);
    }
  }

  /**
   * In every legal run, with or without the index, reads through the fast path return what the simple form holds:
   * `Get` for the working map, and `Get` and `GetVersioned` for every retained version. Only `GetVersioned` misses
   * the empty key in the latest version. A version that is not retained cannot be read, and nothing is found in it.
   */
  lemma {:induction false} FastReadsAgree(initialVersion: nat, skip: bool, ops: seq<Op>, key: Bytes, v: int)
    requires LegalFastRun(initialVersion, skip, ops)
    ensures
      var f, sp := FastRun(initialVersion, skip, ops).f, SpecRun(initialVersion, ops);
      && Get(f, key) == Lookup.Find(sp.work, key)
      && (v in sp.saved ==>
            && ReadVersion(f.tree.db, v).Ok?
            && ImmutableGet(f, ReadVersion(f.tree.db, v).value, v, key) == Lookup.Find(sp.saved[v], key)
            && (GetVersioned(f, key, v) == Lookup.Find(sp.saved[v], key) <==>
                  !(key == [] && v == sp.hi && Enabled(f) && key in sp.saved[v])))
      && (v !in sp.saved ==> ReadVersion(f.tree.db, v).Err? && GetVersioned(f, key, v) == None)
  {
    FastRunInv(initialVersion, skip, ops);
    FastRunSpec(initialVersion, skip, ops);
    var c := FastRun(initialVersion, skip, ops);
    GetAgrees(c.f, c.h, key);
    if v in c.h.roots {
      GetImmutableAgrees(c.f, c.h, v, key);
      GetVersionedAgrees(c.f, c.h, v, key);
    } else {
      NotRetained(c.f.tree, c.h, v);
      GetVersionedNothing(c.f, c.h, v, key);
    }
  }
}
