/**
 * Whole runs on the tree object: orphans are found by comparing hashes, fast entries are written one by one, and after
 * every safe run the object shows what the simple form holds, unless strings hashed in a pruned version collide.
 */
module Execution {
  import opened Base
  import opened Store
  import opened Merkle
  import opened Machine
  import opened Runs
  import opened SafeRuns
  import opened FastIndex
  import opened NodeDatabase
  import opened MutableTrees

  // ----- Safe runs with the index -----

  /** No key was set or removed since the last save, rollback or reopening. */
  predicate Settled(ops: seq<Op>) {
    ops == [] ||
    match ops[|ops| - 1]
    case Set(_, _) => false
    case Remove(_) => false
    case DeleteVersionsTo(_) => Settled(ops[..|ops| - 1])
    case LoadVersionForOverwriting(_) => Settled(ops[..|ops| - 1])
    case _ => true
  }

  /** A safe run that loads for overwriting only when nothing is unsaved, or without the index. */
  predicate SafeFastRun(initialVersion: nat, skip: bool, ops: seq<Op>) {
    ops != [] ==>
      var front, op := ops[..|ops| - 1], ops[|ops| - 1];
      && SafeFastRun(initialVersion, skip, front)
      && SafeStep(SpecRun(initialVersion, front), op)
      && (op.LoadVersionForOverwriting? ==> skip || Settled(front))
  }

  lemma {:induction false} SaveIsOk(s: State, h: History)
    requires Inv(s, h)
    ensures Save(s).Ok?
  {
    SaveSucceeds(s, h);
  }

  /** What a step does to the overlay. */
  lemma {:induction false} StepOverlay(f: FastState, op: Op)
    ensures FastNext(f, op).skip == f.skip
    ensures op.SaveVersion? && Save(f.tree).Ok? ==> f.skip || Clean(FastNext(f, op))
    ensures op.Rollback? || op.Reopen? ==> f.skip || Clean(FastNext(f, op))
    ensures op.DeleteVersionsTo? || op.LoadVersionForOverwriting? ==> Clean(f) ==> Clean(FastNext(f, op))
  {
    match op
    case SaveVersion =>
    case LoadVersionForOverwriting(target) =>
    case Reopen =>
    case _ =>
  }

  lemma {:induction false} StepSettles(f: FastState, h: History, op: Op)
    requires Inv(f.tree, h)
    ensures FastNext(f, op).skip == f.skip
    ensures op.SaveVersion? || op.Rollback? || op.Reopen? ==> f.skip || Clean(FastNext(f, op))
    ensures op.DeleteVersionsTo? || op.LoadVersionForOverwriting? ==> Clean(f) ==> Clean(FastNext(f, op))
  {
    SaveIsOk(f.tree, h);
    StepOverlay(f, op);
  }

  lemma {:induction false} SafeFastStep(f: FastState, h: History, op: Op)
    requires FastInv(f, h) && NoLeafRoots(h) && SafeStep(SpecOf(f.tree, h), op)
    requires op.LoadVersionForOverwriting? ==> f.skip || Clean(f)
    ensures FastLegal(f, h, op) && NoLeafRoots(NextHistory(h, f.tree, op))
  {
    SafeIsLegal(f.tree, h, op);
    SafeKeepsNoLeafRoots(f.tree, h, op);
  }

  lemma {:induction false} SafeFastRunIsLegal(initialVersion: nat, skip: bool, ops: seq<Op>)
    requires SafeFastRun(initialVersion, skip, ops)
    ensures LegalFastRun(initialVersion, skip, ops)
    ensures
      var c := FastRun(initialVersion, skip, ops);
      NoLeafRoots(c.h) && c.f.skip == skip && (Settled(ops) ==> skip || Clean(c.f))
  {
    if ops != [] {
      var front, op := ops[..|ops| - 1], ops[|ops| - 1];
      SafeFastRunIsLegal(initialVersion, skip, front);
      FastRunInv(initialVersion, skip, front);
      FastRunSpec(initialVersion, skip, front);
      var c := FastRun(initialVersion, skip, front);
      SafeFastStep(c.f, c.h, op);
      StepSettles(c.f, c.h, op);
    }
  }

  // ----- Pruning by hash -----

  /** In no version from `lo` to `to` do two hashed strings collide. */
  ghost predicate NoCollisions(sha: Digest, db: Db, lo: int, to: int) {
    forall v {:trigger ReadVersion(db, v)} :: lo <= v <= to && ReadVersion(db, v).Ok? ==>
      var hashed := RootHashed(sha, ReadVersion(db, v).value, 0);
      CollisionFree(sha, hashed, hashed)
  }

  /** In a sound state a legal prune is refused, or every version it deletes can be told apart from the next. */
  lemma {:induction false} SoundIsPrunable(sha: Digest, s: State, h: History, to: int)
    requires Inv(s, h) && Legal(s, h, DeleteVersionsTo(to)) && Digest32(sha) && NoCollisions(sha, s.db, h.lo, to)
    ensures LatestVersion(s) <= to || Prunable(sha, s.db, FirstVersion(s), to)
  {
    SearchFinds(s, h);
    if !IsEmpty(h) && h.lo <= to < h.hi {
      PruneLeaves(s, h, to);
      forall v | h.lo <= v <= to ensures Distinguishable(sha, s.db, v) {
        SoundIsDistinguishable(sha, s, h, v);
      }
    }
  }

  // ----- Runs on the object -----

  /** One operation of a run on the object. */
  method Perform(tree: MutableTree, op: Op, ghost h: History)
    requires tree.Valid() && FastInv(tree.Abs(), h) && FastLegal(tree.Abs(), h, op) && Digest32(tree.ndb.sha)
    requires op.DeleteVersionsTo? ==> NoCollisions(tree.ndb.sha, tree.Tree().db, h.lo, op.to)
    modifies tree, tree.ndb
    ensures tree.Valid() && tree.Abs() == FastNext(old(tree.Abs()), op)
  {
    match op
    case Set(key, value) =>
      var _ := tree.Set(key, Some(value));
    case Remove(key) =>
      var _, _ := tree.Remove(key);
    case Rollback =>
      tree.Rollback();
    case SaveVersion =>
      var _ := tree.SaveVersion();
    case DeleteVersionsTo(to) =>
      SoundIsPrunable(tree.ndb.sha, tree.Tree(), h, to);
      var _ := tree.DeleteVersionsTo(to);
    case LoadVersionForOverwriting(target) =>
      var _ := tree.LoadVersionForOverwriting(target);
    case Reopen =>
      var _ := tree.Reopen();
  }

  /** Whenever the run prunes, no two strings hashed in a pruned version collide. */
  ghost predicate PrunesApart(sha: Digest, initialVersion: nat, skip: bool, ops: seq<Op>) {
    forall k :: 0 <= k < |ops| && ops[k].DeleteVersionsTo? ==>
      var c := FastRun(initialVersion, skip, ops[..k]);
      NoCollisions(sha, c.f.tree.db, c.h.lo, ops[k].to)
  }

  lemma {:induction false} SafePrefix(initialVersion: nat, skip: bool, ops: seq<Op>, k: int)
    requires SafeFastRun(initialVersion, skip, ops) && 0 <= k <= |ops|
    ensures SafeFastRun(initialVersion, skip, ops[..k])
  {
    if k < |ops| {
      SafePrefix(initialVersion, skip, ops[..|ops| - 1], k);
      assert ops[..|ops| - 1][..k] == ops[..k];
    } else {
      assert ops[..k] == ops;
    }
  }

  /** Before each operation of a safe run the state is sound and the operation legal. */
  lemma {:induction false} ReadyFor(initialVersion: nat, skip: bool, ops: seq<Op>, k: int)
    requires SafeFastRun(initialVersion, skip, ops) && 0 <= k < |ops|
    ensures
      var c := FastRun(initialVersion, skip, ops[..k]);
      && FastInv(c.f, c.h) && FastLegal(c.f, c.h, ops[k])
      && FastRun(initialVersion, skip, ops[..k + 1]).f == FastNext(c.f, ops[k])
  {
    SafePrefix(initialVersion, skip, ops, k + 1);
    SafeFastRunIsLegal(initialVersion, skip, ops[..k + 1]);
    assert ops[..k + 1][..k] == ops[..k] && ops[..k + 1][k] == ops[k];
    FastRunInv(initialVersion, skip, ops[..k]);
  }

  /** A safe run ends in a state that shows the simple form. */
  lemma {:induction false} SafeFastRunShows(initialVersion: nat, skip: bool, ops: seq<Op>)
    requires SafeFastRun(initialVersion, skip, ops)
    ensures Shows(FastRun(initialVersion, skip, ops).f.tree, SpecRun(initialVersion, ops))
  {
    SafeFastRunIsLegal(initialVersion, skip, ops);
    FastRunInv(initialVersion, skip, ops);
    FastRunSpec(initialVersion, skip, ops);
    var c := FastRun(initialVersion, skip, ops);
    InvShows(c.f.tree, c.h);
  }

  /** A whole safe run on a new object ends in the state of the machine and shows the simple form. */
  method Execute(sha: Digest, initialVersion: nat, skip: bool, ops: seq<Op>) returns (tree: MutableTree)
    requires Digest32(sha) && SafeFastRun(initialVersion, skip, ops) && PrunesApart(sha, initialVersion, skip, ops)
    ensures tree.Valid() && tree.Abs() == FastRun(initialVersion, skip, ops).f
    ensures Shows(tree.Tree(), SpecRun(initialVersion, ops))
  {
    tree := new MutableTree(sha, initialVersion, skip);
    var i := 0;
    while i < |ops|
      invariant 0 <= i <= |ops| && fresh(tree) && fresh(tree.ndb) && tree.ndb.sha == sha
      invariant tree.Valid() && tree.Abs() == FastRun(initialVersion, skip, ops[..i]).f
    {
      ReadyFor(initialVersion, skip, ops, i);
      Perform(tree, ops[i], FastRun(initialVersion, skip, ops[..i]).h);
      i := i + 1;
    }
    assert ops[..i] == ops;
    SafeFastRunShows(initialVersion, skip, ops);
  }
}
