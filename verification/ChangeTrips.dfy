/**
 * A change set there and back on the tree object: applied and saved by `SaveChangeSet`, and extracted again from the
 * stored versions by the walk that compares hashes.
 */
module ChangeTrips {
  import opened Base
  import opened Trees
  import opened Store
  import opened Merkle
  import opened Orphans
  import opened Diff
  import opened ChangeSets
  import opened Machine
  import opened Replay
  import opened MutableTrees

  /** The root key of a version, or none for a version that does not exist. */
  function RootOrNone(db: Db, v: int): Option<NodeKey> {
    match GetRoot(db, v)
    case Ok(root) => root
    case Err(_) => None
  }

  lemma {:induction false} RootReads(db: Db, v: int)
    requires GetRoot(db, v).Err? || ReadVersion(db, v).Ok?
    ensures ReadsWhole(db, RootOrNone(db, v)) && ReadRoot(db, RootOrNone(db, v)) == TreeAt(db, v)
  {
  }

  /** What the walk is given once a replayed change set has been saved. */
  lemma {:induction false} ReplayedStore(sha: Digest, s: State, h: History, cs: seq<Change>, w: Option<Node>, t: State,
                                        n: State)
    requires Replays(s, h, cs) && w == Replayed(s.root, cs).value && t == s.(root := w) && n == Finish(t, Save(t))
    requires Digest32(sha)
    requires var hashed := RootHashed(sha, TreeAt(s.db, h.hi), 0); CollisionFree(sha, hashed, hashed)
    ensures ReadVersion(n.db, h.hi + 1).Ok? && (GetRoot(n.db, h.hi).Err? || ReadVersion(n.db, h.hi).Ok?)
    ensures Walkable(sha, TreeAt(n.db, h.hi), TreeAt(n.db, h.hi + 1), h.hi)
  {
    ReplayedInv(s, h, cs);
    StoreAfterSave(t, h, n);
    SavedTrees(t, h, n.db);
  }

  /** The version a replayed change set is saved as. */
  lemma {:induction false} ReplayedVersion(s: State, h: History)
    requires Inv(s, h)
    ensures !VersionExists(s, WorkingVersion(s)) && WorkingVersion(s) == h.hi + 1
  {
    SearchFinds(s, h);
  }

  /** Version `v` and the one before it, if any, read back, and the walk can tell their nodes apart. */
  ghost predicate Extractable(db: Db, sha: Digest, v: int) {
    && ReadVersion(db, v).Ok? && (GetRoot(db, v - 1).Err? || ReadVersion(db, v - 1).Ok?)
    && Walkable(sha, TreeAt(db, v - 1), TreeAt(db, v), v - 1)
  }

  /** The changes of a saved version, as one turn of `traverseStateChanges` extracts them. */
  method ChangesOf(db: Db, sha: Digest, v: int) returns (r: Result<seq<Change>, DbError>)
    ensures Extractable(db, sha, v) ==> r == Ok(Changes(TreeAt(db, v - 1), TreeAt(db, v)))
  {
    if Extractable(db, sha, v) {
      RootReads(db, v);
      RootReads(db, v - 1);
    }
    var root :- GetRoot(db, v);
    r := ExtractStateChanges(db, sha, v - 1, RootOrNone(db, v - 1), root);
  }

  datatype TripError = NotApplied(error: ChangeSetError) | NotExtracted(dbError: DbError)

  /** The change set can be replayed and saved, and no two strings hashed in the last version collide. */
  ghost predicate Ready(sha: Digest, s: State, h: History, cs: seq<Change>) {
    var hashed := RootHashed(sha, TreeAt(s.db, h.hi), 0);
    Replays(s, h, cs) && Digest32(sha) && CollisionFree(sha, hashed, hashed)
  }

  /** What is extracted is the change set exactly when no key was lost before, so always when nothing was unsaved. */
  ghost predicate Returned(s: State, cs: seq<Change>, out: seq<Change>) {
    && (out == cs <==> forall key :: !LostBefore(s, cs, key))
    && (s.root == s.lastSaved ==> out == cs)
  }

  /** The new version can be extracted, and what is extracted is as it should be. */
  ghost predicate Trips(sha: Digest, s: State, h: History, cs: seq<Change>, db: Db) {
    Extractable(db, sha, h.hi + 1) && Returned(s, cs, Changes(TreeAt(db, h.hi), TreeAt(db, h.hi + 1)))
  }

  lemma {:induction false} TripReturns(sha: Digest, s: State, h: History, cs: seq<Change>, n: State)
    requires Ready(sha, s, h, cs) && n == Next(s.(root := Replayed(s.root, cs).value), SaveVersion)
    ensures Trips(sha, s, h, cs, n.db)
  {
    var w := Replayed(s.root, cs).value;
    ReplayedStore(sha, s, h, cs, w, s.(root := w), n);
    ReplayRoundTrip(s, h, cs);
  }

  /** What `SaveChangeSet` promises, read for a change set that is ready. */
  lemma {:induction false} AppliedTrips(sha: Digest, s: State, h: History, cs: seq<Change>, n: State,
                                       r: Result<int, ChangeSetError>)
    requires Ready(sha, s, h, cs)
    requires !Uncommitted(s.root) && Replayed(s.root, cs).Ok? ==>
      && n == Next(s.(root := Replayed(s.root, cs).value), SaveVersion)
      && r == if VersionExists(s, WorkingVersion(s)) then Err(NotSaved(AlreadySaved)) else Ok(WorkingVersion(s))
    ensures r == Ok(h.hi + 1) && Trips(sha, s, h, cs, n.db)
  {
    ReplayedVersion(s, h);
    TripReturns(sha, s, h, cs, n);
  }

  method ApplyAndSave(tree: MutableTree, cs: seq<Change>, ghost h: History) returns (r: Result<int, ChangeSetError>)
    requires tree.Valid()
    modifies tree, tree.ndb
    ensures tree.Valid()
    ensures old(Ready(tree.ndb.sha, tree.Tree(), h, cs)) ==>
      r == Ok(h.hi + 1) && Trips(tree.ndb.sha, old(tree.Tree()), h, cs, tree.ndb.db)
  {
    ghost var s := tree.Tree();
    r := tree.SaveChangeSet(cs);
    if Ready(tree.ndb.sha, s, h, cs) {
      AppliedTrips(tree.ndb.sha, s, h, cs, tree.Tree(), r);
    }
  }

  /**
   * A change set is applied to a sound tree object and saved, and the changes of the new version are extracted by the
   * walk: they are the change set itself if and only if no key was lost unnoticed before, unless strings hashed in the
   * version before collide.
   */
  method SaveAndExtract(tree: MutableTree, cs: seq<Change>, ghost h: History)
    returns (r: Result<seq<Change>, TripError>)
    requires tree.Valid()
    modifies tree, tree.ndb
    ensures tree.Valid()
    ensures old(Ready(tree.ndb.sha, tree.Tree(), h, cs)) ==> r.Ok? && Returned(old(tree.Tree()), cs, r.value)
  {
    var saved := ApplyAndSave(tree, cs, h);
    if saved.Err? {
      return Err(NotApplied(saved.error));
    }
    var changes := ChangesOf(tree.ndb.db, tree.ndb.sha, saved.value);
    match changes
    case Err(e) => r := Err(NotExtracted(e));
    case Ok(out) => r := Ok(out);
  }
}
