/**
 * The mutable tree as an object over a node database. Every operation does to its fields what the step of the state
 * machine does, so everything proved about runs holds for the object.
 */
module MutableTrees {
  import opened Base
  import opened Trees
  import opened Update
  import opened Store
  import opened Saving
  import opened Pruning
  import opened Rewinding
  import opened Merkle
  import opened Machine
  import opened FastIndex
  import opened NodeDatabase
  import opened Diff
  import opened Replay
  import FastIterator
  import Lookup

  datatype ChangeSetError = Refused(error: ReplayError) | NotSet(setError: SetError) | NotSaved(failure: Failure)

  datatype SetError = NilValue | Failed(error: Update.Error)

  function WithEntries(fast: map<Bytes, FastNode>, m: map<Bytes, FastNode>, keys: seq<Bytes>): map<Bytes, FastNode>
    requires forall i :: 0 <= i < |keys| ==> keys[i] in m
  {
    if keys == [] then fast
    else WithEntries(fast, m, keys[..|keys| - 1])[keys[|keys| - 1] := m[keys[|keys| - 1]]]
  }

  function WithoutEntries(fast: map<Bytes, FastNode>, keys: seq<Bytes>): map<Bytes, FastNode> {
    if keys == [] then fast else WithoutEntries(fast, keys[..|keys| - 1]) - {keys[|keys| - 1]}
  }

  lemma {:induction false} EntryAt(fast: map<Bytes, FastNode>, m: map<Bytes, FastNode>, keys: seq<Bytes>, key: Bytes)
    requires forall i :: 0 <= i < |keys| ==> keys[i] in m
    ensures var r := WithEntries(fast, m, keys);
      if key in keys then key in r && r[key] == m[key]
        else (key in r <==> key in fast) && (key in r ==> r[key] == fast[key])
  {
    if keys != [] {
      EntryAt(fast, m, keys[..|keys| - 1], key);
      assert keys == keys[..|keys| - 1] + [keys[|keys| - 1]];
    }
  }

  lemma {:induction false} AllEntries(fast: map<Bytes, FastNode>, m: map<Bytes, FastNode>, keys: seq<Bytes>)
    requires (forall i :: 0 <= i < |keys| ==> keys[i] in m) && forall k :: k in m ==> k in keys
    ensures WithEntries(fast, m, keys) == fast + m
  {
    var r := WithEntries(fast, m, keys);
    forall key ensures (key in r <==> key in fast + m) && (key in r ==> r[key] == (fast + m)[key]) {
      EntryAt(fast, m, keys, key);
    }
  }

  lemma {:induction false} NoEntries(fast: map<Bytes, FastNode>, gone: set<Bytes>, keys: seq<Bytes>)
    requires forall k :: k in gone <==> k in keys
    ensures WithoutEntries(fast, keys) == fast - gone
  {
    var r := WithoutEntries(fast, keys);
    forall key ensures (key in r <==> key in fast - gone) && (key in r ==> r[key] == fast[key]) {
      GoneAt(fast, keys, key);
    }
  }

  lemma {:induction false} GoneAt(fast: map<Bytes, FastNode>, keys: seq<Bytes>, key: Bytes)
    ensures var r := WithoutEntries(fast, keys);
      (key in r <==> key in fast && key !in keys) && (key in r ==> r[key] == fast[key])
  {
    if keys != [] {
      GoneAt(fast, keys[..|keys| - 1], key);
      assert keys == keys[..|keys| - 1] + [keys[|keys| - 1]];
    }
  }

  /** The fields after a save. */
  ghost function AfterSave(f: FastState, v: int): FastState {
    var r := SavedRoot(f.tree.root, v);
    var t := State(f.tree.initialVersion, Apply(f.tree.db, SaveOps(f.tree.root, v)), FirstVersion(f.tree), v, r, r, v);
    if f.skip then f.(tree := t) else FastState(t, f.skip, map[], {}, (f.fast + f.additions) - f.removals, Some(v))
  }

  lemma {:induction false} SaveIsStep(f: FastState, g: FastState)
    requires !VersionExists(f.tree, WorkingVersion(f.tree))
    requires g == AfterSave(f.(tree := Searched(f.tree)), WorkingVersion(f.tree))
    ensures g == FastNext(f, Op.SaveVersion)
  {
  }

  function RootLeafSeq(root: Option<Node>): seq<Node> {
    if root.None? then [] else LeafSeq(root.value)
  }

  function EntriesOf(leaves: seq<Node>, version: int): map<Bytes, FastNode> {
    if leaves == [] then map[]
    else
      var last := leaves[|leaves| - 1];
      EntriesOf(leaves[..|leaves| - 1], version)[last.key := FastNode(version, if last.Leaf? then last.value else [])]
  }

  lemma {:induction false} EntriesOne(leaves: seq<Node>, last: Node, version: int)
    ensures EntriesOf(leaves + [last], version) ==
      EntriesOf(leaves, version)[last.key := FastNode(version, if last.Leaf? then last.value else [])]
  {
    assert (leaves + [last])[..|leaves|] == leaves;
  }

  lemma {:induction false} UpdateRight(a: map<Bytes, FastNode>, b: map<Bytes, FastNode>, key: Bytes, x: FastNode)
    ensures (a + b)[key := x] == a + b[key := x]
  {
  }

  lemma {:induction false} EntriesAppendOne(a: seq<Node>, b: seq<Node>, last: Node, version: int)
    requires EntriesOf(a + b, version) == EntriesOf(a, version) + EntriesOf(b, version)
    ensures EntriesOf(a + (b + [last]), version) == EntriesOf(a, version) + EntriesOf(b + [last], version)
  {
    Regroup(a, b, [last]);
    EntriesOne(b, last, version);
    EntriesOne(a + b, last, version);
    UpdateRight(EntriesOf(a, version), EntriesOf(b, version), last.key,
                FastNode(version, if last.Leaf? then last.value else []));
  }

  lemma {:induction false} EntriesAppend(a: seq<Node>, b: seq<Node>, version: int)
    ensures EntriesOf(a + b, version) == EntriesOf(a, version) + EntriesOf(b, version)
    decreases |b|
  {
    if b == [] {
      assert a + b == a;
    } else {
      var front, last := Unsnoc(b);
      EntriesAppend(a, front, version);
      EntriesAppendOne(a, front, last, version);
    }
  }

  /** The entries of a map, all with the same version. */
  function Stamped(m: map<Bytes, Bytes>, version: int): map<Bytes, FastNode> {
    map k | k in m :: FastNode(version, m[k])
  }

  lemma {:induction false} StampedUnion(a: map<Bytes, Bytes>, b: map<Bytes, Bytes>, version: int)
    ensures Stamped(a + b, version) == Stamped(a, version) + Stamped(b, version)
  {
  }

  lemma {:induction false} EntriesOfTree(t: Node, version: int)
    ensures EntriesOf(LeafSeq(t), version) == Stamped(Model(t), version)
  {
    if t.Leaf? {
      EntriesOfLeaf(t, version);
    } else {
      EntriesOfTree(t.left, version);
      EntriesOfTree(t.right, version);
      EntriesAppend(LeafSeq(t.left), LeafSeq(t.right), version);
      StampedUnion(Model(t.left), Model(t.right), version);
    }
  }

  lemma {:induction false} EntriesOfLeaf(t: Node, version: int)
    requires t.Leaf?
    ensures EntriesOf([t], version) == Stamped(map[t.key := t.value], version)
  {
    assert [t][..0] == [];
  }

  /** Indexing the leaves of a tree one by one gives the index of its map. */
  lemma {:induction false} EntriesAreRebuilt(t: State)
    ensures EntriesOf(RootLeafSeq(t.root), t.version) == Rebuilt(t)
  {
    if t.root.Some? {
      EntriesOfTree(t.root.value, t.version);
    }
  }

  lemma {:induction false} PruneSucceeded(s: State, to: int)
    requires PruneOps(s.db, FirstVersion(s), to).Ok?
    ensures [] + PruneOps(s.db, FirstVersion(s), to).value == PruneOps(s.db, FirstVersion(s), to).value
  {
  }

  /** The working tree has no part in which version comes next. */
  lemma {:induction false} NextVersionIs(s: State, w: Option<Node>)
    ensures
      var t := s.(root := w);
      WorkingVersion(t) == WorkingVersion(s) &&
      (VersionExists(t, WorkingVersion(t)) <==> VersionExists(s, WorkingVersion(s)))
  {
  }

  lemma {:induction false} SaveStepsTree(f: FastState)
    ensures FastNext(f, Op.SaveVersion).tree == Next(f.tree, Op.SaveVersion)
  {
  }

  /** Every pair of a change set as an operation on the working tree. */
  ghost function FastReplayed(f: FastState, cs: seq<Change>): FastState {
    if cs == [] then f else FastNext(FastReplayed(f, cs[..|cs| - 1]), OpOf(cs[|cs| - 1]))
  }

  /** Pair `i` is the first that cannot be replayed; it and the pairs before it have been carried out. */
  ghost predicate StopsAt(f: FastState, cs: seq<Change>, i: int, g: FastState) {
    && 0 <= i < |cs| && Replayed(f.tree.root, cs[..i]).Ok? && Replayed(f.tree.root, cs[..i + 1]).Err?
    && g == FastReplayed(f, cs[..i + 1])
  }

  ghost predicate StoppedIn(f: FastState, cs: seq<Change>, g: FastState) {
    exists i :: StopsAt(f, cs, i, g)
  }

  /** What `LoadVersion` returns: the latest version, whichever was loaded, and 0 on a store without versions. */
  ghost function LoadResult(s: State, target: int): Result<int, Failure> {
    match Machine.LoadVersion(s, target)
    case Err(e) => Err(e)
    case Ok(_) => Ok(if FirstVersion(s) == 0 then 0 else LatestVersion(s))
  }

  /** In every sound state `LoadVersion` returns the latest retained version, and refuses one that is not retained. */
  lemma {:induction false} LoadReturnsLatest(s: State, h: History, target: int)
    requires Inv(s, h)
    ensures LoadResult(s, target) ==
      if IsEmpty(h) then if target <= 0 then Ok(0) else Err(NotFound)
      else if target <= 0 || target in h.roots then Ok(h.hi)
      else Err(NotFound)
  {
    SearchFinds(s, h);
    var v := if target <= 0 then h.hi else target;
    ExistsExactly(s, h, v);
    if !IsEmpty(h) && v in h.roots {
      LoadKeepsInv(s, h, target);
    }
  }

  lemma {:induction false} SetOutcome(root: Option<Node>, key: Bytes, value: Bytes)
    requires AvlRoot(root)
    ensures
      var u := Update.Set(root, key, value);
      && u.Ok? && u.value.updated == (key in RootModel(root))
      && AvlRoot(Some(u.value.node)) && RootModel(Some(u.value.node)) == RootModel(root)[key := value]
  {
    SetIsMapUpdate(root, key, value);
  }

  class MutableTree {
    const ndb: NodeDb
    const initialVersion: nat
    const skip: bool
    var root: Option<Node>
    var lastSaved: Option<Node>
    var version: int
    var additions: map<Bytes, FastNode>
    var removals: set<Bytes>

    ghost function Tree(): State
      reads this, ndb
    {
      State(initialVersion, ndb.db, ndb.firstVersion, ndb.latestVersion, root, lastSaved, version)
    }

    /** The object as a state of the machine. */
    ghost function Abs(): FastState
      reads this, ndb
    {
      FastState(Tree(), skip, additions, removals, ndb.fast, ndb.liveVersion)
    }

    /** Between operations no write is pending. */
    ghost predicate Valid()
      reads this, ndb
    {
      ndb.batch == [] && ndb.fastBatch == []
    }

    /** A tree over an empty store. */
    constructor (sha: Digest, initialVersion: nat, skip: bool)
      ensures Valid() && fresh(ndb) && ndb.sha == sha && Abs() == FastOpened(initialVersion, skip)
    {
      var database := new NodeDb(sha, map[], map[], None);
      ndb := database;
      this.initialVersion, this.skip := initialVersion, skip;
      root, lastSaved, version := None, None, 0;
      additions, removals := map[], {};
    }

    method Set(key: Bytes, value: Option<Bytes>) returns (r: Result<bool, SetError>)
      requires Valid()
      modifies this
      ensures Valid()
      ensures value.None? ==> r == Err(NilValue) && Abs() == old(Abs())
      ensures value.Some? ==> Abs() == FastNext(old(Abs()), Op.Set(key, value.value))
      ensures value.Some? ==> r.Ok? == Update.Set(old(root), key, value.value).Ok?
      ensures value.Some? && old(AvlRoot(root)) ==>
        && r == Ok(old(key in RootModel(root)))
        && AvlRoot(root) && RootModel(root) == old(RootModel(root))[key := value.value]
    {
      if value.None? {
        return Err(NilValue);
      }
      var updated := Update.Set(root, key, value.value);
      if AvlRoot(root) {
        SetOutcome(root, key, value.value);
      }
      if !skip {
        additions := additions[key := FastNode(version + 1, value.value)];
        removals := removals - {key};
      }
      root := if updated.Ok? then Some(updated.value.node) else None;
      r := match updated case Ok(u) => Ok(u.updated) case Err(e) => Err(Failed(e));
    }

    method Remove(key: Bytes) returns (value: Option<Bytes>, removed: bool)
      requires Valid()
      modifies this
      ensures Valid() && Abs() == FastNext(old(Abs()), Op.Remove(key))
      ensures removed <==> Update.Remove(old(root), key).Ok? && Update.Remove(old(root), key).value.removed
      ensures old(AvlRoot(root)) ==>
        && removed == old(key in RootModel(root)) && value == old(Lookup.Find(RootModel(root), key))
        && AvlRoot(root) && RootModel(root) == old(RootModel(root)) - {key}
      ensures !removed ==> Abs() == old(Abs())
    {
      var r := Update.Remove(root, key);
      if AvlRoot(root) {
        RemoveIsMapDelete(root, key);
      }
      if r.Err? || !r.value.removed {
        return None, false;
      }
      if !skip {
        additions := additions - {key};
        removals := removals + {key};
      }
      root := r.value.newSelf;
      return r.value.value, true;
    }

    method Rollback()
      requires Valid()
      modifies this
      ensures Valid() && Abs() == FastNext(old(Abs()), Op.Rollback)
      ensures root == (if version > 0 then lastSaved else None) && (!skip ==> Clean(Abs()))
    {
      root := if version > 0 then lastSaved else None;
      if !skip {
        additions, removals := map[], {};
      }
    }

    /** `Get`, by the overlay, the index or the tree: in every sound state the value in the working map. */
    method Get(key: Bytes, ghost h: History) returns (value: Option<Bytes>)
      ensures value == FastIndex.Get(Abs(), key)
      ensures FastInv(Abs(), h) ==> value == Lookup.Find(RootModel(root), key)
    {
      if FastInv(Abs(), h) {
        GetAgrees(Abs(), h, key);
      }
      if root.None? {
        return None;
      }
      if !skip {
        if key in additions {
          return Some(additions[key].value);
        }
        if key in removals {
          return None;
        }
        if ndb.liveVersion.Some? && key != [] {
          if key !in ndb.fast {
            if version == ndb.latestVersion {
              return None;
            }
          } else if ndb.fast[key].version <= version {
            return Some(ndb.fast[key].value);
          }
        }
      }
      return Lookup.Get(root.value, key).value;
    }

    /** `saveFastNodeAdditions` and `saveFastNodeRemovals`, each in key order. */
    method SaveFastNodes()
      requires ndb.fastBatch == []
      modifies ndb`fastBatch
      ensures ApplyFast(ndb.fast, ndb.fastBatch) == (ndb.fast + additions) - removals
    {
      var added := FastIterator.KeysToSort(additions.Keys, None, None, true);
      assert forall i :: 0 <= i < |added| ==> added[i] in added;
      var i := 0;
      while i < |added|
        invariant 0 <= i <= |added|
        invariant ApplyFast(ndb.fast, ndb.fastBatch) == WithEntries(ndb.fast, additions, added[..i])
      {
        assert added[..i + 1][..i] == added[..i];
        ndb.SaveFastNode(added[i], additions[added[i]]);
        i := i + 1;
      }
      assert added[..i] == added;
      AllEntries(ndb.fast, additions, added);
      var removed := FastIterator.KeysToSort(removals, None, None, true);
      ghost var full := ndb.fast + additions;
      var j := 0;
      while j < |removed|
        invariant 0 <= j <= |removed|
        invariant ApplyFast(ndb.fast, ndb.fastBatch) == WithoutEntries(full, removed[..j])
      {
        assert removed[..j + 1][..j] == removed[..j];
        ndb.DeleteFastNode(removed[j]);
        j := j + 1;
      }
      assert removed[..j] == removed;
      NoEntries(full, removals, removed);
    }

    /** What is written for the tree itself: the empty root, a reference, or the new nodes. */
    method SaveTree(v: int)
      requires ndb.batch == []
      modifies ndb`batch
      ensures ndb.batch == SaveOps(root, v)
    {
      if root.None? {
        ndb.SaveRecord(RootKey(v), EmptyRoot);
      } else if root.value.nk.Some? {
        ndb.SaveRecord(RootKey(v), Reference(KeyOf(root.value)));
      } else {
        ndb.SaveNodes(NewNodes(root.value, v, 0));
      }
    }

    /** Writing a version: the fast entries, the nodes, and one commit. */
    method WriteVersion(v: int)
      requires Valid() && ndb.firstVersion == ndb.First()
      modifies this, ndb
      ensures Valid() && Abs() == AfterSave(old(Abs()), v)
    {
      if !skip {
        SaveFastNodes();
        ndb.liveVersion := Some(v);
      }
      SaveTree(v);
      ndb.Commit();
      ndb.latestVersion := v;
      version := v;
      root := SavedRoot(root, v);
      lastSaved := root;
      if !skip {
        additions, removals := map[], {};
      }
    }

    /** `SaveVersion`; a version that exists already is refused. */
    method SaveVersion() returns (r: Result<int, Failure>)
      requires Valid()
      modifies this, ndb
      ensures Valid() && Abs() == FastNext(old(Abs()), Op.SaveVersion)
      ensures r == if old(VersionExists(Tree(), WorkingVersion(Tree()))) then Err(AlreadySaved)
        else Ok(old(WorkingVersion(Tree())))
    {
      ghost var before := Abs();
      var v := version + 1;
      if v == 1 && initialVersion > 0 {
        v := initialVersion;
      }
      var found := ndb.VersionExists(v);
      if found {
        return Err(AlreadySaved);
      }
      WriteVersion(v);
      SaveIsStep(before, Abs());
      r := Ok(v);
    }

    /** `DeleteVersionsTo` and its commit, as long as the versions can be told apart by hash. */
    method DeleteVersionsTo(to: int) returns (r: Result<(), Failure>)
      requires Valid()
      modifies ndb
      ensures
        var f := old(Abs());
        && (LatestVersion(f.tree) <= to ==>
              r == Err(LatestNotBeyond) && Valid() && Abs() == FastNext(f, Op.DeleteVersionsTo(to)))
        && (LatestVersion(f.tree) > to && Prunable(ndb.sha, f.tree.db, FirstVersion(f.tree), to) ==>
              r.Ok? && Valid() && Abs() == FastNext(f, Op.DeleteVersionsTo(to)))
    {
      ghost var f := Abs();
      ghost var known := Prunable(ndb.sha, f.tree.db, FirstVersion(f.tree), to);
      r := ndb.DeleteVersionsTo(to);
      if r.Ok? {
        if known {
          PruneSucceeded(f.tree, to);
        }
        ndb.Commit();
      }
    }

    /** `enableFastStorageAndCommitIfNotEnabled`: drop every entry, index the loaded tree leaf by leaf, commit. */
    method EnableFastStorage()
      requires Valid() && !skip
      modifies ndb
      ensures Valid() && Abs() == Enable(old(Abs()))
      ensures
        var latest := LatestVersion(old(Tree()));
        && ndb.liveVersion == Some(latest)
        && ndb.fast == if old(ndb.liveVersion) == Some(latest) then old(ndb.fast) else Stamped(RootModel(root), version)
      ensures ndb.db == old(ndb.db) && ndb.firstVersion == old(ndb.firstVersion)
      ensures ndb.latestVersion == Known(old(Tree()))
    {
      ghost var before := Tree();
      var latest := ndb.GetLatestVersion();
      if ndb.liveVersion == Some(latest) {
        return;
      }
      DeleteFastNodes();
      IndexLeaves();
      ndb.liveVersion := Some(latest);
      ndb.Commit();
      EntriesAreRebuilt(before.(latest := Known(before)));
    }

    method DeleteFastNodes()
      requires ndb.fastBatch == []
      modifies ndb`fastBatch
      ensures ApplyFast(ndb.fast, ndb.fastBatch) == map[]
    {
      var keys := FastIterator.KeysToSort(ndb.fast.Keys, None, None, true);
      var i := 0;
      while i < |keys|
        invariant 0 <= i <= |keys|
        invariant ApplyFast(ndb.fast, ndb.fastBatch) == WithoutEntries(ndb.fast, keys[..i])
      {
        assert keys[..i + 1][..i] == keys[..i];
        ndb.DeleteFastNode(keys[i]);
        i := i + 1;
      }
      assert keys[..i] == keys;
      NoEntries(ndb.fast, ndb.fast.Keys, keys);
    }

    method IndexLeaves()
      requires ApplyFast(ndb.fast, ndb.fastBatch) == map[]
      modifies ndb`fastBatch
      ensures ApplyFast(ndb.fast, ndb.fastBatch) == EntriesOf(RootLeafSeq(root), version)
    {
      var leaves := RootLeafSeq(root);
      var i := 0;
      while i < |leaves|
        invariant 0 <= i <= |leaves|
        invariant ApplyFast(ndb.fast, ndb.fastBatch) == EntriesOf(leaves[..i], version)
      {
        assert leaves[..i + 1][..i] == leaves[..i];
        ndb.SaveFastNode(leaves[i].key, FastNode(version, if leaves[i].Leaf? then leaves[i].value else []));
        i := i + 1;
      }
      assert leaves[..i] == leaves;
    }

    /** The first part of `LoadVersion`: find and read the version. */
    method ReadTarget(target: int) returns (r: Result<int, Failure>)
      requires Valid()
      modifies this`root, this`lastSaved, this`version, ndb`firstVersion, ndb`latestVersion
      ensures Valid() && r == LoadResult(old(Tree()), target)
      ensures Tree() == if r.Ok? then Machine.LoadVersion(old(Tree()), target).value else Searched(old(Tree()))
    {
      var first := ndb.GetFirstVersion();
      var latest := ndb.GetLatestVersion();
      if 0 < first < initialVersion {
        return Err(EarlierThanInitial);
      }
      if latest < target {
        return Err(NotFound);
      }
      if first == 0 {
        if target <= 0 {
          return Ok(0);
        }
        return Err(NotFound);
      }
      var v := if target <= 0 then latest else target;
      var found := ndb.VersionExists(v);
      if !found {
        return Err(NotFound);
      }
      match ReadVersion(ndb.db, v)
      case Err(e) =>
        r := Err(Unreadable(e));
      case Ok(t) =>
        root, lastSaved, version := t, t, v;
        r := Ok(latest);
    }

    /** `LoadVersion`: read the version, then bring the index up to date. */
    method LoadVersion(target: int) returns (r: Result<int, Failure>)
      requires Valid()
      modifies this`root, this`lastSaved, this`version, ndb
      ensures Valid() && r == LoadResult(old(Tree()), target)
      ensures r.Err? ==> Abs() == old(Abs()).(tree := Searched(old(Tree())))
      ensures r.Ok? ==> Abs() == Enable(old(Abs()).(tree := Machine.LoadVersion(old(Tree()), target).value))
      ensures r.Ok? ==> Tree() == Machine.LoadVersion(old(Tree()), target).value
    {
      r := ReadTarget(target);
      if r.Ok? && !skip {
        LoadedKnows(old(Tree()), target);
        EnableFastStorage();
      }
    }

    /** `LoadVersionForOverwriting`: load, delete everything above, commit, and index again if needed. */
    method LoadVersionForOverwriting(target: int) returns (r: Result<(), Failure>)
      requires Valid()
      modifies this`root, this`lastSaved, this`version, ndb
      ensures Valid() && r.Ok? == Overwrite(old(Tree()), target).Ok?
      ensures r.Err? ==> r.error == Overwrite(old(Tree()), target).error
      ensures Abs() == FastNext(old(Abs()), Op.LoadVersionForOverwriting(target))
    {
      ghost var before := Abs();
      var loaded := LoadVersion(target);
      if loaded.Err? {
        return Err(loaded.error);
      }
      CutIsOverwrite(before.tree, target);
      CutAbove(target);
      ghost var cut := Abs();
      if !skip {
        EnableFastStorage();
      }
      OverwriteIsStep(before, target, cut, Abs());
      r := Ok(());
    }

    /** Everything above the target version goes, in one commit. */
    method CutAbove(target: int)
      requires Valid()
      modifies ndb
      ensures Valid() && ndb.fast == old(ndb.fast) && ndb.liveVersion == old(ndb.liveVersion)
      ensures
        var u := old(Tree());
        Tree() == if LatestVersion(u) < target + 1 then u.(latest := Known(u))
                  else u.(db := u.db - Scanned(u.db, target + 1, LatestVersion(u)), latest := target)
    {
      ndb.DeleteVersionsFrom(target + 1);
      ndb.Commit();
    }

    /** Closing the tree and opening the store again. */
    method Reopen() returns (r: Result<int, Failure>)
      requires Valid()
      modifies this, ndb
      ensures Valid() && Abs() == FastNext(old(Abs()), Op.Reopen)
      ensures r == LoadResult(Opened(initialVersion, old(ndb.db)), 0)
    {
      ndb.firstVersion, ndb.latestVersion := 0, 0;
      root, lastSaved, version := None, None, 0;
      additions, removals := map[], {};
      r := LoadVersion(0);
    }

    method ApplyPair(ch: Change) returns (r: Result<(), ChangeSetError>)
      requires Valid()
      modifies this
      ensures Valid()
      ensures Abs() == FastNext(old(Abs()), OpOf(ch))
      ensures match ReplayOne(old(root), ch)
        case Ok(w) => r.Ok? && Tree() == old(Tree()).(root := w)
        case Err(_) => r.Err?
    {
      if ch.Erase? {
        var _, removed := Remove(ch.key);
        if !removed {
          return Err(Refused(MissingKey(ch.key)));
        }
      } else {
        var set' := Set(ch.key, Some(ch.value));
        if set'.Err? {
          return Err(NotSet(set'.error));
        }
      }
      r := Ok(());
    }

    /** The loop of `SaveChangeSet` over the pairs. */
    method ApplyPairs(cs: seq<Change>) returns (r: Result<(), ChangeSetError>)
      requires Valid()
      modifies this
      ensures Valid()
      ensures match old(Replayed(root, cs))
        case Ok(w) => r.Ok? && Tree() == old(Tree()).(root := w) && Abs() == FastReplayed(old(Abs()), cs)
        case Err(_) => r.Err? && StoppedIn(old(Abs()), cs, Abs())
    {
      var i := 0;
      while i < |cs|
        invariant 0 <= i <= |cs| && Valid()
        invariant old(Replayed(root, cs[..i])) == Ok(root) && Tree() == old(Tree()).(root := root)
        invariant Abs() == FastReplayed(old(Abs()), cs[..i])
      {
        ReplayedOn(old(root), cs, i);
        assert cs[..i + 1][..i] == cs[..i];
        var done := ApplyPair(cs[i]);
        if done.Err? {
          assert StopsAt(old(Abs()), cs, i, Abs());
          return Err(done.error);
        }
        i := i + 1;
      }
      assert cs[..i] == cs;
      r := Ok(());
    }

    /** `SaveChangeSet`: every pair in order on the working tree, then a save. */
    method SaveChangeSet(cs: seq<Change>) returns (r: Result<int, ChangeSetError>)
      requires Valid()
      modifies this, ndb
      ensures Valid()
      ensures old(Uncommitted(root)) ==> r == Err(Refused(UncommittedChanges)) && Abs() == old(Abs())
      ensures !old(Uncommitted(root)) && old(Replayed(root, cs)).Err? ==> r.Err? && StoppedIn(old(Abs()), cs, Abs())
      ensures !old(Uncommitted(root)) && old(Replayed(root, cs)).Ok? ==>
        && Tree() == Next(old(Tree()).(root := old(Replayed(root, cs)).value), Op.SaveVersion)
        && Abs() == FastNext(FastReplayed(old(Abs()), cs), Op.SaveVersion)
        && r == if old(VersionExists(Tree(), WorkingVersion(Tree()))) then Err(NotSaved(AlreadySaved))
                else Ok(old(WorkingVersion(Tree())))
    {
      if root.Some? && root.value.nk.None? {
        return Err(Refused(UncommittedChanges));
      }
      var done := ApplyPairs(cs);
      if done.Err? {
        return Err(done.error);
      }
      ghost var replayed := Abs();
      NextVersionIs(old(Tree()), root);
      var saved := SaveVersion();
      SaveStepsTree(replayed);
      if saved.Err? {
        return Err(NotSaved(saved.error));
      }
      r := Ok(saved.value);
    }

    /** `GetVersioned`. */
    method GetVersioned(key: Bytes, v: int, ghost h: History) returns (value: Option<Bytes>)
      modifies ndb`firstVersion, ndb`latestVersion
      ensures value == FastIndex.GetVersioned(old(Abs()), key, v)
      ensures old(FastInv(Abs(), h)) && v in h.roots && key != [] ==> value == Lookup.Find(RootModel(h.roots[v]), key)
      ensures old(FastInv(Abs(), h)) && v !in h.roots ==> value == None
    {
      if FastInv(Abs(), h) {
        if v in h.roots {
          GetVersionedAgrees(Abs(), h, v, key);
        } else {
          GetVersionedNothing(Abs(), h, v, key);
        }
      }
      var exists' := ndb.VersionExists(v);
      if !exists' {
        return None;
      }
      if !skip {
        var latest := ndb.GetLatestVersion();
        if version == latest && ndb.liveVersion.Some? {
          var found := key != [] && key in ndb.fast;
          if !found && v == ndb.latestVersion {
            return None;
          }
          if found && ndb.fast[key].version <= v {
            return Some(ndb.fast[key].value);
          }
        }
      }
      match ReadVersion(ndb.db, v)
      case Err(_) =>
        value := None;
      case Ok(t) =>
        value := ImmutableTreeGet(t, v, key);
    }

    /** `ImmutableTree.Get`. */
    method ImmutableTreeGet(t: Option<Node>, v: int, key: Bytes) returns (value: Option<Bytes>)
      ensures value == ImmutableGet(Abs(), t, v, key)
    {
      if t.None? {
        return None;
      }
      if !skip && ndb.liveVersion.Some? && key != [] {
        if key !in ndb.fast {
          if v == ndb.latestVersion {
            return None;
          }
        } else if ndb.fast[key].version <= v {
          return Some(ndb.fast[key].value);
        }
      }
      return Lookup.Get(t.value, key).value;
    }
  }

  /** One more pair of a change set; a pair that fails makes the whole replay fail. */
  lemma {:induction false} ReplayedOn(root: Option<Node>, cs: seq<Change>, i: int)
    requires 0 <= i < |cs| && Replayed(root, cs[..i]).Ok?
    ensures Replayed(root, cs[..i + 1]) == ReplayOne(Replayed(root, cs[..i]).value, cs[i])
    ensures ReplayOne(Replayed(root, cs[..i]).value, cs[i]).Err? ==> Replayed(root, cs).Err?
  {
    assert cs[..i + 1][..i] == cs[..i];
    if Replayed(root, cs[..i + 1]).Err? {
      ReplayFails(root, cs, i + 1);
    }
  }

  lemma {:induction false} ReplayFails(root: Option<Node>, cs: seq<Change>, k: int)
    requires 0 <= k <= |cs| && Replayed(root, cs[..k]).Err?
    ensures Replayed(root, cs).Err?
    decreases |cs|
  {
    if k == |cs| {
      assert cs[..k] == cs;
    } else {
      assert cs[..|cs| - 1][..k] == cs[..k];
      ReplayFails(root, cs[..|cs| - 1], k);
    }
  }

  /** After a load the latest version is cached. */
  lemma {:induction false} LoadedKnows(s: State, target: int)
    requires Machine.LoadVersion(s, target).Ok?
    ensures var u := Machine.LoadVersion(s, target).value; Known(u) == u.latest && u.db == s.db
  {
  }

  /** Load, cut and index again make one step. */
  lemma {:induction false} OverwriteIsStep(f: FastState, target: int, cut: FastState, g: FastState)
    requires Machine.LoadVersion(f.tree, target).Ok? && Overwrite(f.tree, target).Ok?
    requires cut ==
      Enable(f.(tree := Machine.LoadVersion(f.tree, target).value)).(tree := Overwrite(f.tree, target).value)
    requires g == Enable(cut)
    ensures g == FastNext(f, Op.LoadVersionForOverwriting(target))
  {
  }

  lemma {:induction false} CutIsOverwrite(s: State, target: int)
    requires Machine.LoadVersion(s, target).Ok?
    ensures
      var u := Machine.LoadVersion(s, target).value;
      && Overwrite(s, target).Ok?
      && Overwrite(s, target).value ==
           if LatestVersion(u) < target + 1 then u.(latest := Known(u))
           else u.(db := u.db - Scanned(u.db, target + 1, LatestVersion(u)), latest := target)
  {
  }
}
