/**
 * The versioned tree as a state machine: the store, the working tree and the cached version numbers, and what
 * each public operation does to them. Every run of it refines a map of maps.
 */
module Machine {
  import opened Base
  import opened Trees
  import opened Update
  import opened Store
  import opened Layout
  import opened Saving
  import opened Pruning
  import opened Rewinding

  /** `first` and `latest` are caches; a value that is not positive means that the version is not known yet. */
  datatype State = State(
    initialVersion: nat, db: Db, first: int, latest: int,
    root: Option<Node>, lastSaved: Option<Node>, version: int)

  datatype Op =
    | Set(key: Bytes, value: Bytes)
    | Remove(key: Bytes)
    | Rollback
    | SaveVersion
    | DeleteVersionsTo(to: int)
    | LoadVersionForOverwriting(target: int)
    | Reopen

  datatype Failure =
    | AlreadySaved
    | LatestNotBeyond
    | EarlierThanInitial
    | NotFound
    | Unreadable(error: DbError)

  // ----- The operations -----

  function Opened(initialVersion: nat, db: Db): State {
    State(initialVersion, db, 0, 0, None, None, 0)
  }

  ghost function LatestOf(db: Db, latest: int): (v: int)
    ensures v >= 0
  {
    if latest > 0 then latest else LatestIn(db)
  }

  ghost function FirstOf(db: Db, first: int, latest: int): int {
    if first > 0 then first else SearchFirst(db, 0, LatestOf(db, latest))
  }

  ghost function LatestVersion(s: State): int {
    LatestOf(s.db, s.latest)
  }

  ghost function FirstVersion(s: State): int {
    FirstOf(s.db, s.first, s.latest)
  }

  /** The cached latest version after a lookup; a store without versions leaves the cache alone. */
  ghost function Known(s: State): int {
    if LatestVersion(s) > 0 then LatestVersion(s) else s.latest
  }

  /** Looking the version numbers up caches them. */
  ghost function Searched(s: State): State {
    s.(first := FirstVersion(s), latest := Known(s))
  }

  ghost predicate VersionExists(s: State, v: int) {
    FirstVersion(s) <= v <= LatestVersion(s)
  }

  function WorkingVersion(s: State): int {
    if s.version + 1 == 1 && s.initialVersion > 0 then s.initialVersion else s.version + 1
  }

  ghost function Save(s: State): Result<State, Failure> {
    var v := WorkingVersion(s);
    if VersionExists(s, v) then Err(AlreadySaved)
    else
      var r := SavedRoot(s.root, v);
      Ok(Searched(s).(db := Apply(s.db, SaveOps(s.root, v)), latest := v, version := v, root := r, lastSaved := r))
  }

  ghost function Prune(s: State, to: int): Result<State, Failure> {
    var u := Searched(s);
    if LatestVersion(s) <= to then Err(LatestNotBeyond)
    else match PruneOps(u.db, u.first, to)
      case Err(e) => Err(Unreadable(e))
      case Ok(ops) => Ok(u.(db := Apply(u.db, ops), first := Max(u.first, to + 1)))
  }

  /** A target that is not positive stands for the latest version; on a store without versions nothing is loaded. */
  ghost function LoadVersion(s: State, target: int): Result<State, Failure> {
    var u := Searched(s);
    if 0 < u.first < u.initialVersion then Err(EarlierThanInitial)
    else if LatestVersion(s) < target then Err(NotFound)
    else if u.first == 0 then if target <= 0 then Ok(u) else Err(NotFound)
    else
      var v := if target <= 0 then LatestVersion(s) else target;
      if !VersionExists(s, v) then Err(NotFound)
      else match ReadVersion(u.db, v)
        case Err(e) => Err(Unreadable(e))
        case Ok(r) => Ok(u.(root := r, lastSaved := r, version := v))
  }

  /** Loading a version and deleting everything above `target`. */
  ghost function Overwrite(s: State, target: int): Result<State, Failure> {
    var u :- LoadVersion(s, target);
    if LatestVersion(u) < target + 1 then Ok(u)
    else Ok(u.(db := u.db - Scanned(u.db, target + 1, LatestVersion(u)), latest := target))
  }

  ghost function Finish(s: State, r: Result<State, Failure>): State {
    if r.Ok? then r.value else Searched(s)
  }

  ghost function Next(s: State, op: Op): State {
    match op
    case Set(key, value) =>
      var r := Update.Set(s.root, key, value);
      s.(root := if r.Ok? then Some(r.value.node) else None)
    case Remove(key) =>
      var r := Update.Remove(s.root, key);
      if r.Ok? && r.value.removed then s.(root := r.value.newSelf) else s
    case Rollback => s.(root := if s.version > 0 then s.lastSaved else None)
    case SaveVersion => Finish(s, Save(s))
    case DeleteVersionsTo(to) => Finish(s, Prune(s, to))
    case LoadVersionForOverwriting(target) => Finish(s, Overwrite(s, target))
    case Reopen => Finish(Opened(s.initialVersion, s.db), LoadVersion(Opened(s.initialVersion, s.db), 0))
  }

  // ----- The history behind a state -----

  predicate IsEmpty(h: History) {
    h.lo > h.hi
  }

  function NextHistory(h: History, s: State, op: Op): History {
    match op
    case SaveVersion => Extend(h, Canon(SavedRoot(s.root, h.hi + 1)))
    case DeleteVersionsTo(to) => if h.lo <= to < h.hi then Trim(h, to + 1) else h
    case LoadVersionForOverwriting(target) => if h.lo <= target <= h.hi then Cut(h, target) else h
    case _ => h
  }

  function Start(s: State): int {
    if s.initialVersion > 0 then s.initialVersion else 1
  }

  ghost predicate Inv(s: State, h: History) {
    && Holds(s.db, h, h.lo) && Readable(h, h.lo)
    && Start(s) <= h.lo <= h.hi + 1
    && (IsEmpty(h) ==> h.lo == Start(s) && s.version == 0)
    && (!IsEmpty(h) ==> s.version == h.hi)
    && (s.first > 0 ==> !IsEmpty(h) && s.first == h.lo)
    && (s.latest > 0 ==> !IsEmpty(h) && s.latest == h.hi)
    && Mirrors(s.lastSaved, Last(h), h.lo) && Derived(s.root, s.lastSaved) && AvlRoot(s.root)
  }

  /** When an operation does what it promises. */
  ghost predicate Legal(s: State, h: History, op: Op)
    requires Complete(h)
  {
    match op
    case SaveVersion => !ReusesMovedLeaf(s.root, s.lastSaved, h.lo)
    case DeleteVersionsTo(to) => h.lo <= to < h.hi ==> PruneIsClean(h, h.lo, to)
    case LoadVersionForOverwriting(target) => IsEmpty(h) || !(-1 <= target <= 0)
    case _ => true
  }

  // ----- Every legal step keeps the invariant -----

  lemma {:induction false} SearchFinds(s: State, h: History)
    requires Inv(s, h)
    ensures LatestVersion(s) == (if IsEmpty(h) then 0 else h.hi)
    ensures FirstVersion(s) == (if IsEmpty(h) then 0 else h.lo)
    ensures Inv(Searched(s), h)
  {
    LatestIsNewest(s.db, h, LatestIn(s.db));
    if !IsEmpty(h) {
      FirstIsOldest(s.db, h, SearchFirst(s.db, 0, h.hi));
    }
  }

  /** The versions that exist are the retained ones; on an empty store version 0 passes for one. */
  lemma {:induction false} ExistsExactly(s: State, h: History, v: int)
    requires Inv(s, h)
    ensures VersionExists(s, v) <==> v in h.roots || (IsEmpty(h) && v == 0)
  {
    SearchFinds(s, h);
    assert InSpan(h, v) <==> v in h.roots;
  }

  /** A version that is not retained cannot be read. */
  lemma {:induction false} NotRetained(s: State, h: History, v: int)
    requires Inv(s, h) && v !in h.roots
    ensures ReadVersion(s.db, v) == Err(VersionDoesNotExist)
  {
    assert !InSpan(h, v);
    RootKeyPresent(s.db, h, h.lo, v);
  }

  lemma {:induction false} SavedIsKeyed(h: History, m: Option<Node>)
    requires GoodHistory(h) && h.lo <= h.hi + 1 && Mirrors(m, Last(h), h.lo) && m.Some?
    ensures Saved(m.value) && Avl(m.value)
  {
    LastIsGood(h);
    RekeyedRoot(Last(h).value, At(Last(h).value, h.lo));
  }

  lemma {:induction false} ReusableIsClosed(t: Node)
    requires Saved(t)
    ensures Closed(Reusable(Some(t))) && KeptBelow(t, Reusable(Some(t)))
  {
    if t.Inner? {
      ChildrenStay(t.left);
      ChildrenStay(t.right);
    }
  }

  lemma {:induction false} DerivedBelow(h: History, s: State)
    requires Inv(s, h) && s.root.Some?
    ensures Closed(Reusable(s.lastSaved)) && KeptBelow(s.root.value, Reusable(s.lastSaved))
  {
    if s.lastSaved.Some? {
      SavedIsKeyed(h, s.lastSaved);
      ReusableIsClosed(s.lastSaved.value);
    }
    if s.root != s.lastSaved {
      KeptChildren(s.root.value, Reusable(s.lastSaved));
    }
  }

  lemma {:induction false} SetKeepsInv(s: State, h: History, key: Bytes, value: Bytes)
    requires Inv(s, h)
    ensures Inv(Next(s, Set(key, value)), h)
    ensures RootModel(Next(s, Set(key, value)).root) == RootModel(s.root)[key := value]
  {
    SetIsMapUpdate(s.root, key, value);
    if s.root.Some? {
      DerivedBelow(h, s);
      SetCopiesOnWrite(s.root.value, key, value, Reusable(s.lastSaved));
    }
  }

  lemma {:induction false} RemoveKeepsInv(s: State, h: History, key: Bytes)
    requires Inv(s, h)
    ensures Inv(Next(s, Remove(key)), h)
    ensures RootModel(Next(s, Remove(key)).root) == RootModel(s.root) - {key}
  {
    RemoveIsMapDelete(s.root, key);
    if s.root.Some? {
      DerivedBelow(h, s);
      RemoveCopiesOnWrite(s.root.value, key, Reusable(s.lastSaved));
    }
  }

  /** What was saved last, read as a map. */
  lemma {:induction false} LastSavedModel(s: State, h: History)
    requires Inv(s, h)
    ensures AvlRoot(s.lastSaved) && RootModel(s.lastSaved) == RootModel(Last(h))
  {
    if s.lastSaved.Some? {
      SavedIsKeyed(h, s.lastSaved);
    }
  }

  lemma {:induction false} RollbackKeepsInv(s: State, h: History)
    requires Inv(s, h)
    ensures Inv(Next(s, Rollback), h)
    ensures RootModel(Next(s, Rollback).root) == RootModel(Last(h))
  {
    LastSavedModel(s, h);
  }

  lemma {:induction false} SavedModel(root: Option<Node>, v: int)
    ensures RootModel(SavedRoot(root, v)) == RootModel(root) && RootModel(Canon(root)) == RootModel(root)
    ensures AvlRoot(root) ==> AvlRoot(SavedRoot(root, v))
  {
    if root.Some? {
      AssignKeepsTree(root.value, v, 0);
    }
  }

  lemma {:induction false} SaveSucceeds(s: State, h: History)
    requires Inv(s, h)
    ensures
      var v := h.hi + 1;
      var r := SavedRoot(s.root, v);
      Save(s) ==
        Ok(Searched(s).(db := Apply(s.db, SaveOps(s.root, v)), latest := v, version := v, root := r, lastSaved := r))
  {
    SearchFinds(s, h);
  }

  lemma {:induction false} StoreAfterSave(s: State, h: History, n: State)
    requires Inv(s, h) && n == Finish(s, Save(s))
    ensures n.db == Apply(s.db, SaveOps(s.root, h.hi + 1))
  {
    SaveSucceeds(s, h);
  }

  /** The store and the history after a legal save. */
  lemma {:induction false} SaveExtendsTo(db: Db, h: History, m: Option<Node>, work: Option<Node>, r: Option<Node>,
                                         h': History)
    requires Holds(db, h, h.lo) && Readable(h, h.lo) && h.lo <= h.hi + 1
    requires Mirrors(m, Last(h), h.lo) && Derived(work, m) && AvlRoot(work) && !ReusesMovedLeaf(work, m, h.lo)
    requires r == SavedRoot(work, h.hi + 1) && h' == Extend(h, Canon(r))
    ensures Holds(Apply(db, SaveOps(work, h.hi + 1)), h', h'.lo) && Readable(h', h'.lo) && Mirrors(r, Last(h'), h'.lo)
  {
    SaveExtendsStore(db, h, m, work);
  }

  lemma {:induction false} SavedMaps(h: History, work: Option<Node>, v: int, r: Option<Node>, h': History)
    requires AvlRoot(work) && h.lo <= h.hi + 1 && r == SavedRoot(work, v) && h' == Extend(h, Canon(r))
    ensures AvlRoot(r) && RootModel(r) == RootModel(work) && RootModel(Last(h')) == RootModel(work)
  {
    SavedModel(work, v);
    SavedModel(r, v);
  }

  lemma {:induction false} SaveExtends(s: State, h: History)
    requires Inv(s, h) && Legal(s, h, SaveVersion)
    ensures
      var v, h' := h.hi + 1, NextHistory(h, s, SaveVersion);
      var r := SavedRoot(s.root, v);
      && Holds(Apply(s.db, SaveOps(s.root, v)), h', h'.lo) && Readable(h', h'.lo)
      && Mirrors(r, Last(h'), h'.lo) && AvlRoot(r)
      && RootModel(r) == RootModel(s.root) && RootModel(Last(h')) == RootModel(s.root)
  {
    var r, h' := SavedRoot(s.root, h.hi + 1), NextHistory(h, s, SaveVersion);
    SaveExtendsTo(s.db, h, s.lastSaved, s.root, r, h');
    SavedMaps(h, s.root, h.hi + 1, r, h');
  }

  lemma {:induction false} SaveKeepsInv(s: State, h: History)
    requires Inv(s, h) && Legal(s, h, SaveVersion)
    ensures Save(s).Ok? && Inv(Save(s).value, NextHistory(h, s, SaveVersion))
    ensures RootModel(Save(s).value.root) == RootModel(s.root)
    ensures RootModel(Last(NextHistory(h, s, SaveVersion))) == RootModel(s.root)
  {
    SearchFinds(s, h);
    SaveSucceeds(s, h);
    SaveExtends(s, h);
  }

  lemma {:induction false} StillMirrors(m: Option<Node>, saved: Option<Node>, lo: int, later: int)
    requires Mirrors(m, saved, lo) && lo <= later
    ensures Mirrors(m, saved, later)
  {
  }

  lemma {:induction false} PruneGives(s: State, h: History, to: int)
    requires Inv(s, h)
    ensures to < h.lo && to < (if IsEmpty(h) then 0 else h.hi) ==> Prune(s, to) == Ok(Searched(s))
    ensures to >= (if IsEmpty(h) then 0 else h.hi) ==> Prune(s, to).Err?
    ensures h.lo <= to < h.hi && PruneOps(s.db, h.lo, to).Ok? ==>
      Prune(s, to) == Ok(s.(db := Apply(s.db, PruneOps(s.db, h.lo, to).value), first := to + 1, latest := h.hi))
  {
    SearchFinds(s, h);
  }

  lemma {:induction false} PruneLeaves(s: State, h: History, to: int)
    requires Inv(s, h) && h.lo <= to < h.hi && PruneIsClean(h, h.lo, to)
    ensures PruneOps(s.db, h.lo, to).Ok?
    ensures Inv(s.(db := Apply(s.db, PruneOps(s.db, h.lo, to).value), first := to + 1, latest := h.hi), Trim(h, to + 1))
  {
    CleanPruneLeaves(s.db, h, h.lo, to);
    PrunedInv(s, h, to, Apply(s.db, PruneOps(s.db, h.lo, to).value));
  }

  lemma {:induction false} PrunedInv(s: State, h: History, to: int, db: Db)
    requires Inv(s, h) && h.lo <= to < h.hi
    requires Holds(db, Trim(h, to + 1), to + 1) && Readable(Trim(h, to + 1), to + 1)
    ensures Inv(s.(db := db, first := to + 1, latest := h.hi), Trim(h, to + 1))
  {
    StillMirrors(s.lastSaved, Last(h), h.lo, to + 1);
  }

  lemma {:induction false} PruneWithin(s: State, h: History, to: int, r: Result<State, Failure>)
    requires Inv(s, h) && h.lo <= to < h.hi && PruneIsClean(h, h.lo, to)
    requires PruneOps(s.db, h.lo, to).Ok? ==>
      r == Ok(s.(db := Apply(s.db, PruneOps(s.db, h.lo, to).value), first := to + 1, latest := h.hi))
    ensures r.Ok? && Inv(r.value, Trim(h, to + 1)) && r.value.root == s.root
  {
    PruneLeaves(s, h, to);
  }

  lemma {:induction false} PruneOutside(s: State, h: History, to: int, r: Result<State, Failure>)
    requires Inv(s, h) && (r == Ok(Searched(s)) || r.Err?)
    ensures Inv(Finish(s, r), h) && Finish(s, r).root == s.root
  {
    SearchFinds(s, h);
  }

  lemma {:induction false} PruneKeepsWithin(s: State, h: History, to: int, n: State, h': History)
    requires Inv(s, h) && h.lo <= to < h.hi && PruneIsClean(h, h.lo, to)
    requires n == Finish(s, Prune(s, to)) && h' == Trim(h, to + 1)
    ensures Prune(s, to).Ok? && Inv(n, h') && n.root == s.root
  {
    PruneGives(s, h, to);
    PruneWithin(s, h, to, Prune(s, to));
  }

  lemma {:induction false} PruneKeepsOutside(s: State, h: History, to: int, n: State)
    requires Inv(s, h) && !(h.lo <= to < h.hi) && n == Finish(s, Prune(s, to))
    ensures Prune(s, to).Ok? <==> to < (if IsEmpty(h) then 0 else h.hi)
    ensures Inv(n, h) && n.root == s.root
  {
    PruneGives(s, h, to);
    PruneOutside(s, h, to, Prune(s, to));
  }

  lemma {:induction false} PruneKeepsInv(s: State, h: History, to: int)
    requires Inv(s, h) && Legal(s, h, DeleteVersionsTo(to))
    ensures Prune(s, to).Ok? <==> to < (if IsEmpty(h) then 0 else h.hi)
    ensures Inv(Next(s, DeleteVersionsTo(to)), NextHistory(h, s, DeleteVersionsTo(to)))
    ensures Next(s, DeleteVersionsTo(to)).root == s.root
  {
    if h.lo <= to < h.hi {
      PruneKeepsWithin(s, h, to, Next(s, DeleteVersionsTo(to)), NextHistory(h, s, DeleteVersionsTo(to)));
    } else {
      PruneKeepsOutside(s, h, to, Next(s, DeleteVersionsTo(to)));
    }
  }

  lemma {:induction false} LoadKeepsInv(s: State, h: History, target: int)
    requires Inv(s, h) && !IsEmpty(h) && (target <= 0 || h.lo <= target <= h.hi)
    ensures LoadVersion(s, target).Ok?
    ensures
      var v, u := if target <= 0 then h.hi else target, LoadVersion(s, target).value;
      && u.db == s.db && u.version == v && u.root == u.lastSaved && u.initialVersion == s.initialVersion
      && u.first == h.lo && u.latest == h.hi
      && Mirrors(u.root, h.roots[v], h.lo) && AvlRoot(u.root) && RootModel(u.root) == RootModel(h.roots[v])
  {
    SearchFinds(s, h);
    var v := if target <= 0 then h.hi else target;
    VersionReadsBack(s.db, h, h.lo, v);
    assert GoodVersion(h, v);
    if h.roots[v].Some? {
      RekeyedRoot(h.roots[v].value, At(h.roots[v].value, h.lo));
    }
  }

  /** Nothing is loaded or cut: the store has no versions, or not the one asked for. */
  lemma {:induction false} OverwriteNothing(s: State, h: History, target: int)
    requires Inv(s, h) && (IsEmpty(h) || target > h.hi || 0 < target < h.lo)
    ensures Overwrite(s, target).Ok? <==> IsEmpty(h) && target <= 0
    ensures Inv(Next(s, LoadVersionForOverwriting(target)), h)
    ensures Next(s, LoadVersionForOverwriting(target)).root == s.root
  {
    SearchFinds(s, h);
    if IsEmpty(h) {
      EmptyStore(s.db, h);
      assert Scanned(s.db, target + 1, 0) == {};
    }
  }

  /** What an overwriting load leaves, given what the load gives. */
  lemma {:induction false} OverwriteGives(s: State, h: History, target: int, u: State)
    requires !IsEmpty(h) && LoadVersion(s, target) == Ok(u) && u.db == s.db && u.latest == h.hi && h.hi > 0
    ensures Overwrite(s, target) ==
      Ok(if h.hi < target + 1 then u else u.(db := s.db - Scanned(s.db, target + 1, h.hi), latest := target))
  {
  }

  lemma {:induction false} OverwriteLatest(s: State, h: History, target: int)
    requires Inv(s, h) && !IsEmpty(h) && target < -1
    ensures Overwrite(s, target).Ok? && Inv(Overwrite(s, target).value, h)
    ensures RootModel(Overwrite(s, target).value.root) == RootModel(h.roots[h.hi])
  {
    LoadKeepsInv(s, h, target);
    OverwriteGives(s, h, target, LoadVersion(s, target).value);
    assert Scanned(s.db, target + 1, h.hi) == {};
    assert s.db - {} == s.db;
  }

  lemma {:induction false} OverwrittenInv(s: State, h: History, target: int, u: State, db: Db)
    requires Inv(s, h) && h.lo <= target <= h.hi && Start(u) == Start(s)
    requires u.version == target && u.first == h.lo && u.root == u.lastSaved
    requires Mirrors(u.root, h.roots[target], h.lo) && AvlRoot(u.root)
    requires Holds(db, Cut(h, target), h.lo) && Readable(Cut(h, target), h.lo)
    ensures Inv(u.(db := db, latest := target), Cut(h, target))
  {
    assert Last(Cut(h, target)) == h.roots[target];
  }

  lemma {:induction false} OverwriteCuts(s: State, h: History, target: int, u: State, db: Db)
    requires LoadVersion(s, target) == Ok(u) && u.db == s.db && u.latest == h.hi && 0 < h.lo <= target <= h.hi
    requires db == s.db - Scanned(s.db, target + 1, h.hi)
    ensures Overwrite(s, target) == Ok(u.(db := db, latest := target))
  {
    OverwriteGives(s, h, target, u);
    if target == h.hi {
      assert Scanned(s.db, target + 1, h.hi) == {};
      assert db == s.db;
    }
  }

  lemma {:induction false} OverwriteAt(s: State, h: History, target: int)
    requires Inv(s, h) && h.lo <= target <= h.hi
    ensures Overwrite(s, target).Ok? && Inv(Overwrite(s, target).value, Cut(h, target))
    ensures RootModel(Overwrite(s, target).value.root) == RootModel(h.roots[target])
  {
    LoadKeepsInv(s, h, target);
    var u, db := LoadVersion(s, target).value, s.db - Scanned(s.db, target + 1, h.hi);
    RewindLeavesEarlier(s.db, h, target);
    OverwrittenInv(s, h, target, u, db);
    OverwriteCuts(s, h, target, u, db);
  }

  lemma {:induction false} OverwriteKeepsInv(s: State, h: History, target: int)
    requires Inv(s, h) && Legal(s, h, LoadVersionForOverwriting(target))
    ensures Overwrite(s, target).Ok? <==> (if IsEmpty(h) then target <= 0 else target <= 0 || h.lo <= target <= h.hi)
    ensures Inv(Next(s, LoadVersionForOverwriting(target)), NextHistory(h, s, LoadVersionForOverwriting(target)))
    ensures RootModel(Next(s, LoadVersionForOverwriting(target)).root) ==
      if IsEmpty(h) || target > h.hi || 0 < target < h.lo then RootModel(s.root)
      else RootModel(h.roots[if target <= 0 then h.hi else target])
  {
    if IsEmpty(h) || target > h.hi || 0 < target < h.lo {
      OverwriteNothing(s, h, target);
    } else if target <= 0 {
      OverwriteLatest(s, h, target);
    } else {
      OverwriteAt(s, h, target);
    }
  }

  lemma {:induction false} OpenedEmpty(s: State, h: History, o: State, n: State)
    requires Inv(s, h) && IsEmpty(h) && o == Opened(s.initialVersion, s.db) && n == Finish(o, LoadVersion(o, 0))
    ensures LoadVersion(o, 0).Ok? && Inv(n, h) && RootModel(n.root) == RootModel(Last(h))
  {
    EmptyStore(s.db, h);
    assert Inv(o, h);
    SearchFinds(o, h);
  }

  lemma {:induction false} OpenedLoads(s: State, h: History, o: State, n: State)
    requires Inv(s, h) && !IsEmpty(h) && o == Opened(s.initialVersion, s.db) && n == Finish(o, LoadVersion(o, 0))
    ensures LoadVersion(o, 0).Ok? && Inv(n, h) && RootModel(n.root) == RootModel(Last(h))
  {
    SearchFinds(s, h);
    LatestIsNewest(s.db, h, LatestIn(s.db));
    FirstIsOldest(s.db, h, SearchFirst(s.db, 0, h.hi));
    assert LoadVersion(o, 0) == LoadVersion(s, 0);
    LoadKeepsInv(s, h, 0);
  }

  lemma {:induction false} ReopenKeepsInv(s: State, h: History)
    requires Inv(s, h)
    ensures LoadVersion(Opened(s.initialVersion, s.db), 0).Ok? && Inv(Next(s, Reopen), h)
    ensures RootModel(Next(s, Reopen).root) == RootModel(Last(h))
  {
    var o := Opened(s.initialVersion, s.db);
    if IsEmpty(h) {
      OpenedEmpty(s, h, o, Next(s, Reopen));
    } else {
      OpenedLoads(s, h, o, Next(s, Reopen));
    }
  }
}
