/**
 * The node database as an object: the store, a batch of pending writes, and the cached version numbers. Reads never
 * see the batch; a commit applies it.
 */
module NodeDatabase {
  import opened Base
  import opened Trees
  import opened Store
  import opened Layout
  import opened Saving
  import opened Pruning
  import opened Rewinding
  import opened Merkle
  import opened Orphans
  import opened Machine
  import opened FastIndex

  datatype FastOp = PutFast(key: Bytes, node: FastNode) | DelFast(key: Bytes)

  function WriteFast(fast: map<Bytes, FastNode>, op: FastOp): map<Bytes, FastNode> {
    match op
    case PutFast(key, node) => fast[key := node]
    case DelFast(key) => fast - {key}
  }

  function ApplyFast(fast: map<Bytes, FastNode>, ops: seq<FastOp>): map<Bytes, FastNode> {
    if ops == [] then fast else WriteFast(ApplyFast(fast, ops[..|ops| - 1]), ops[|ops| - 1])
  }

  lemma {:induction false} ApplyFastOne(fast: map<Bytes, FastNode>, ops: seq<FastOp>, op: FastOp)
    ensures ApplyFast(fast, ops + [op]) == WriteFast(ApplyFast(fast, ops), op)
  {
    assert (ops + [op])[..|ops|] == ops;
  }

  /** The trees of versions `v` and `v + 1`, if they can be read, can be told apart by hash. */
  ghost predicate Distinguishable(sha: Digest, db: Db, v: int) {
    ReadVersion(db, v).Ok? && ReadVersion(db, v + 1).Ok? ==>
      Walkable(sha, ReadVersion(db, v).value, ReadVersion(db, v + 1).value, v)
  }

  /** The versions first..to can be pruned: each can be told apart from the next, and none is unreadable. */
  ghost predicate Prunable(sha: Digest, db: Db, first: int, to: int) {
    (forall v :: first <= v <= to ==> Distinguishable(sha, db, v)) && PruneOps(db, first, to).Ok?
  }

  /** The batch holds what it held before and the deletion of the versions first..to. */
  ghost predicate Batched(db: Db, first: int, to: int, before: seq<BatchOp>, batch: seq<BatchOp>) {
    PruneOps(db, first, to).Ok? && batch == before + PruneOps(db, first, to).value
  }

  /** `holds` says what is batched before each version of a prune. */
  ghost predicate Follows(db: Db, first: int, before: seq<BatchOp>, holds: (int, seq<BatchOp>) -> bool) {
    forall v, b {:trigger holds(v, b)} :: holds(v, b) <==> Batched(db, first, v - 1, before, b)
  }

  lemma {:induction false} NothingBatched(db: Db, first: int, to: int, before: seq<BatchOp>)
    requires to < first
    ensures Batched(db, first, to, before, before)
  {
    assert before + [] == before;
  }

  lemma {:induction false} BatchedStep(sha: Digest, db: Db, first: int, v: int, to: int, before: seq<BatchOp>,
                                      b: seq<BatchOp>)
    requires Prunable(sha, db, first, to) && first <= v <= to && Batched(db, first, v - 1, before, b)
    ensures DeleteVersionOps(db, v).Ok? && Distinguishable(sha, db, v)
    ensures Batched(db, first, v, before, b + DeleteVersionOps(db, v).value)
  {
    PruneNext(sha, db, first, v, to, before);
  }

  /** Known of the batch once every version before `v` has been deleted, `v` counting from `first`. */
  ghost predicate Steps(sha: Digest, db: Db, first: int, to: int, holds: (int, seq<BatchOp>) -> bool) {
    forall v, b {:trigger holds(v, b), DeleteVersionOps(db, v)} :: first <= v <= to && holds(v, b) ==>
      DeleteVersionOps(db, v).Ok? && Distinguishable(sha, db, v) && holds(v + 1, b + DeleteVersionOps(db, v).value)
  }

  lemma {:induction false} BatchedEach(sha: Digest, db: Db, first: int, to: int, before: seq<BatchOp>,
                                      holds: (int, seq<BatchOp>) -> bool)
    requires Prunable(sha, db, first, to) && Follows(db, first, before, holds)
    ensures holds(first, before) && Steps(sha, db, first, to, holds)
  {
    NothingBatched(db, first, first - 1, before);
    forall v, b {:trigger holds(v, b), DeleteVersionOps(db, v)} | first <= v <= to && holds(v, b)
      ensures DeleteVersionOps(db, v).Ok? && Distinguishable(sha, db, v)
      ensures holds(v + 1, b + DeleteVersionOps(db, v).value)
    {
      BatchedStep(sha, db, first, v, to, before, b);
    }
  }

  lemma {:induction false} BatchedAll(db: Db, first: int, to: int, before: seq<BatchOp>, batch: seq<BatchOp>,
                                     holds: (int, seq<BatchOp>) -> bool)
    requires Follows(db, first, before, holds) && holds(Max(first, to + 1), batch)
    ensures Batched(db, first, to, before, batch)
  {
    if to < first {
      NothingBatched(db, first, to, before);
    }
  }

  ghost function HoldsBatch(db: Db, first: int, before: seq<BatchOp>): (holds: (int, seq<BatchOp>) -> bool)
    ensures Follows(db, first, before, holds)
  {
    (v: int, b: seq<BatchOp>) => Batched(db, first, v - 1, before, b)
  }

  class NodeDb {
    const sha: Digest
    var db: Db
    var batch: seq<BatchOp>
    var fast: map<Bytes, FastNode>
    var fastBatch: seq<FastOp>
    var firstVersion: int
    var latestVersion: int
    var liveVersion: Option<int>

    constructor (sha: Digest, db: Db, fast: map<Bytes, FastNode>, liveVersion: Option<int>)
      ensures this.sha == sha && this.db == db && batch == [] && this.fast == fast && fastBatch == []
      ensures firstVersion == 0 && latestVersion == 0 && this.liveVersion == liveVersion
    {
      this.sha, this.db, batch, this.fast, fastBatch := sha, db, [], fast, [];
      firstVersion, latestVersion, this.liveVersion := 0, 0, liveVersion;
    }

    ghost function Latest(): (v: int)
      reads this
    {
      LatestOf(db, latestVersion)
    }

    ghost function First(): int
      reads this
    {
      FirstOf(db, firstVersion, latestVersion)
    }

    method GetLatestVersion() returns (v: int)
      modifies this`latestVersion
      ensures v == old(Latest()) && Latest() == v
      ensures latestVersion == if v > 0 then v else old(latestVersion)
    {
      if latestVersion > 0 {
        return latestVersion;
      }
      v := FindLatest(db);
      LatestIsUnique(db, v, LatestIn(db));
      if v > 0 {
        latestVersion := v;
      }
    }

    method GetFirstVersion() returns (v: int)
      modifies this`firstVersion, this`latestVersion
      ensures v == old(First()) && firstVersion == v && First() == v && Latest() == old(Latest())
      ensures latestVersion == old(latestVersion) || latestVersion == Latest() > 0
    {
      if firstVersion > 0 {
        return firstVersion;
      }
      var latest := GetLatestVersion();
      v := FindFirst(db, latest);
      firstVersion := v;
    }

    method VersionExists(version: int) returns (exists': bool)
      modifies this`firstVersion, this`latestVersion
      ensures exists' == (old(First()) <= version <= old(Latest()))
      ensures firstVersion == old(First()) && latestVersion == if old(Latest()) > 0 then old(Latest())
        else old(latestVersion)
    {
      var first := GetFirstVersion();
      var latest := GetLatestVersion();
      return first <= version <= latest;
    }

    /** The orphans of a version; one that was the root of an earlier version has been moved to nonce 0 by now. */
    method DeleteOrphans(orphans: seq<Node>, version: int)
      requires AllKeyed(orphans)
      modifies this`batch
      ensures batch == old(batch) + OrphanOps(orphans, version)
    {
      var i := 0;
      while i < |orphans|
        invariant 0 <= i <= |orphans| && batch == old(batch) + OrphanOps(orphans[..i], version)
      {
        assert orphans[..i + 1][..i] == orphans[..i];
        var nk := KeyOf(orphans[i]);
        if nk.nonce == 1 && nk.version < version {
          nk := NodeKey(nk.version, 0);
        }
        batch := batch + [Del(nk)];
        i := i + 1;
      }
      assert orphans[..i] == orphans;
    }

    /** The root record of a version, and a root the next version still refers to. */
    method DeleteRoot(version: int, rootKey: Option<NodeKey>, nextKey: Option<NodeKey>)
      modifies this`batch
      ensures batch == old(batch) + RootOps(db, version, rootKey, nextKey)
    {
      if rootKey != Some(RootKey(version)) {
        batch := batch + [Del(RootKey(version))];
      }
      if nextKey == Some(RootKey(version)) && RootKey(version) in db {
        batch := batch + [Del(RootKey(version))];
        batch := batch + [Put(NodeKey(version, 0), db[RootKey(version)])];
      }
    }

    /** `deleteVersion`: its orphans, its root record, and a root still in use, moved to nonce 0. */
    method DeleteVersion(version: int) returns (r: Result<(), DbError>)
      modifies this`batch
      ensures Distinguishable(sha, db, version) && DeleteVersionOps(db, version).Ok? ==>
        r.Ok? && batch == old(batch) + DeleteVersionOps(db, version).value
      ensures GetRoot(db, version).Err? || GetRoot(db, version + 1).Err? ==> r.Err? && batch == old(batch)
    {
      var rootKey :- GetRoot(db, version);
      var orphans :- TraverseOrphans(db, sha, version, version + 1);
      match GetRoot(db, version + 1)
      case Err(e) =>
        r := Err(e);
      case Ok(nextKey) =>
        DeleteOrphans(orphans, version);
        DeleteRoot(version, rootKey, nextKey);
        r := Ok(());
    }

    /** The loop over the versions first..to; `holds` is what its caller knows of the batch before each version. */
    method DeleteEach(first: int, to: int, ghost good: bool, ghost holds: (int, seq<BatchOp>) -> bool)
      returns (r: Result<(), Failure>)
      requires firstVersion == first && (good ==> holds(first, batch))
      requires good ==> Steps(sha, db, first, to, holds)
      modifies this`batch, this`firstVersion
      ensures good ==> r.Ok? && holds(Max(first, to + 1), batch) && firstVersion == Max(first, to + 1)
      ensures r.Err? ==> r.error.Unreadable?
    {
      var version := first;
      while version <= to
        invariant first <= version && (version <= to + 1 || version == first) && firstVersion == version
        invariant good ==> holds(version, batch)
        decreases 1 - version + to
      {
        assert good ==> DeleteVersionOps(db, version).Ok? && Distinguishable(sha, db, version);
        var deleted := DeleteVersion(version);
        if deleted.Err? {
          return Err(Unreadable(deleted.error));
        }
        version := version + 1;
        firstVersion := version;
      }
      r := Ok(());
    }

    /** The versions first..to, one after the other. */
    method DeleteRange(first: int, to: int) returns (r: Result<(), Failure>)
      requires firstVersion == first
      modifies this`batch, this`firstVersion
      ensures Prunable(sha, db, first, to) ==>
        r.Ok? && Batched(db, first, to, old(batch), batch) && firstVersion == Max(first, to + 1)
      ensures r.Err? ==> r.error.Unreadable?
    {
      ghost var good, holds := Prunable(sha, db, first, to), HoldsBatch(db, first, batch);
      if good {
        BatchedEach(sha, db, first, to, batch, holds);
      }
      r := DeleteEach(first, to, good, holds);
      if good {
        BatchedAll(db, first, to, old(batch), batch, holds);
      }
    }

    /** `DeleteVersionsTo`: never the latest version; everything into one batch. */
    method DeleteVersionsTo(to: int) returns (r: Result<(), Failure>)
      modifies this`batch, this`firstVersion, this`latestVersion
      ensures latestVersion == if old(Latest()) > 0 then old(Latest()) else old(latestVersion)
      ensures old(Latest()) <= to ==> r == Err(LatestNotBeyond) && batch == old(batch) && firstVersion == old(First())
      ensures old(Latest()) > to && Prunable(sha, db, old(First()), to) ==>
        && r.Ok? && Batched(db, old(First()), to, old(batch), batch)
        && firstVersion == Max(old(First()), to + 1)
      ensures old(Latest()) > to && r.Err? ==> r.error.Unreadable?
    {
      var first := GetFirstVersion();
      var latest := GetLatestVersion();
      if latest <= to {
        return Err(LatestNotBeyond);
      }
      r := DeleteRange(first, to);
    }

    /** `DeleteVersionsFrom`: everything the range scan over the versions from `from` on visits. */
    method DeleteVersionsFrom(from: int)
      modifies this`batch, this`latestVersion
      ensures old(Latest()) < from ==>
        batch == old(batch) && latestVersion == if old(Latest()) > 0 then old(Latest()) else old(latestVersion)
      ensures old(Latest()) >= from ==>
        latestVersion == from - 1 && Apply(db, batch) == Apply(db, old(batch)) - Scanned(db, from, old(Latest()))
    {
      var latest := GetLatestVersion();
      if latest < from {
        return;
      }
      var keys := Scanned(db, from, latest);
      ghost var all := keys;
      while keys != {}
        invariant keys <= all && Apply(db, batch) == Apply(db, old(batch)) - (all - keys)
        decreases |keys|
      {
        var k :| k in keys;
        ApplyOne(db, batch, Del(k));
        batch := batch + [Del(k)];
        keys := keys - {k};
        assert Apply(db, batch) == Apply(db, old(batch)) - (all - keys);
      }
      assert all - {} == all;
      latestVersion := from - 1;
    }

    method SaveRecord(key: NodeKey, record: Record)
      modifies this`batch
      ensures batch == old(batch) + [Put(key, record)]
    {
      batch := batch + [Put(key, record)];
    }

    /** Writing the new nodes of a saved tree, children before parents. */
    method SaveNodes(nodes: seq<Node>)
      requires AllLinked(nodes)
      modifies this`batch
      ensures batch == old(batch) + PutAll(nodes)
    {
      var i := 0;
      while i < |nodes|
        invariant 0 <= i <= |nodes| && batch == old(batch) + PutAll(nodes[..i])
      {
        assert nodes[..i + 1][..i] == nodes[..i];
        SaveRecord(KeyOf(nodes[i]), Stored(RecordOf(nodes[i])));
        i := i + 1;
      }
      assert nodes[..i] == nodes;
    }

    method SaveFastNode(key: Bytes, node: FastNode)
      modifies this`fastBatch
      ensures ApplyFast(fast, fastBatch) == ApplyFast(fast, old(fastBatch))[key := node]
    {
      ApplyFastOne(fast, fastBatch, PutFast(key, node));
      fastBatch := fastBatch + [PutFast(key, node)];
    }

    method DeleteFastNode(key: Bytes)
      modifies this`fastBatch
      ensures ApplyFast(fast, fastBatch) == ApplyFast(fast, old(fastBatch)) - {key}
    {
      ApplyFastOne(fast, fastBatch, DelFast(key));
      fastBatch := fastBatch + [DelFast(key)];
    }

    /** `Commit`: both the nodes and the fast entries take effect, in order. */
    method Commit()
      modifies this`db, this`batch, this`fast, this`fastBatch
      ensures db == Apply(old(db), old(batch)) && batch == []
      ensures fast == ApplyFast(old(fast), old(fastBatch)) && fastBatch == []
    {
      db, batch := Apply(db, batch), [];
      fast, fastBatch := ApplyFast(fast, fastBatch), [];
    }
  }

  lemma {:induction false} PruneNext(sha: Digest, db: Db, first: int, version: int, to: int, before: seq<BatchOp>)
    requires Prunable(sha, db, first, to) && first <= version <= to && PruneOps(db, first, version - 1).Ok?
    ensures Distinguishable(sha, db, version) && DeleteVersionOps(db, version).Ok? && PruneOps(db, first, version).Ok?
    ensures before + PruneOps(db, first, version).value ==
      before + PruneOps(db, first, version - 1).value + DeleteVersionOps(db, version).value
  {
    PruneSoFar(db, first, version, to);
    Regroup(before, PruneOps(db, first, version - 1).value, DeleteVersionOps(db, version).value);
  }

  /** In a sound state, consecutive versions can be told apart unless two strings hashed in the older one collide. */
  lemma {:induction false} SoundIsDistinguishable(sha: Digest, s: State, h: History, v: int)
    requires Inv(s, h) && h.lo <= v < h.hi && Digest32(sha)
    requires ReadVersion(s.db, v).Ok? ==>
      var hashed := RootHashed(sha, ReadVersion(s.db, v).value, 0); CollisionFree(sha, hashed, hashed)
    ensures Distinguishable(sha, s.db, v)
  {
    VersionReadsBack(s.db, h, h.lo, v);
    VersionReadsBack(s.db, h, h.lo, v + 1);
    StepOf(h, h.lo, v);
    ReadConsecutive(h, h.lo, v, h.roots[v], h.roots[v + 1]);
  }
}
