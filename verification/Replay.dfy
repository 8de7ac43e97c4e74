/**
 * SaveChangeSet replays a change set as a new version. Extracting the changes of that version gives the change
 * set back.
 */
module Replay {
  import opened Base
  import opened Trees
  import opened Update
  import opened Store
  import opened Layout
  import opened Saving
  import opened Pruning
  import opened Machine
  import opened Orphans
  import opened Diff
  import opened ChangeSets

  datatype ReplayError = UncommittedChanges | MissingKey(key: Bytes) | TreeError(error: Update.Error)

  function ReplayOne(root: Option<Node>, ch: Change): Result<Option<Node>, ReplayError> {
    match ch
    case Assign(key, value) =>
      (match Update.Set(root, key, value)
       case Ok(u) => Ok(Some(u.node))
       case Err(e) => Err(TreeError(e)))
    case Erase(key) =>
      (match Update.Remove(root, key)
       case Ok(r) => if r.removed then Ok(r.newSelf) else Err(MissingKey(key))
       case Err(e) => Err(TreeError(e)))
  }

  /** The pairs of a change set, one after the other, on the working tree. */
  function Replayed(root: Option<Node>, cs: seq<Change>): Result<Option<Node>, ReplayError> {
    if cs == [] then Ok(root)
    else
      var r :- Replayed(root, cs[..|cs| - 1]);
      ReplayOne(r, cs[|cs| - 1])
  }

  /** The guard of SaveChangeSet: a root that has not been saved means uncommitted changes. */
  predicate Uncommitted(root: Option<Node>) {
    root.Some? && root.value.nk.None?
  }

  function OpOf(ch: Change): Op {
    match ch
    case Assign(key, value) => Op.Set(key, value)
    case Erase(key) => Op.Remove(key)
  }

  lemma {:induction false} ReplayOneInv(s: State, h: History, ch: Change)
    requires Inv(s, h)
    ensures ReplayOne(s.root, ch).Ok? <==> ch.Assign? || ch.key in RootModel(s.root)
    ensures ReplayOne(s.root, ch).Ok? ==>
      && s.(root := ReplayOne(s.root, ch).value) == Next(s, OpOf(ch))
      && Inv(Next(s, OpOf(ch)), h)
      && RootModel(ReplayOne(s.root, ch).value) == ApplyChange(RootModel(s.root), ch)
      && RootLeafMap(ReplayOne(s.root, ch).value) ==
           if ch.Assign? then RootLeafMap(s.root)[ch.key := NewLeaf(ch.key, ch.value)]
             else RootLeafMap(s.root) - {ch.key}
  {
    match ch
    case Assign(key, value) =>
      SetIsMapUpdate(s.root, key, value);
      SetKeepsInv(s, h, key, value);
    case Erase(key) =>
      RemoveIsMapDelete(s.root, key);
      RemoveKeepsInv(s, h, key);
  }

  /** A replay keeps the state sound, and does to the map what the changes say. */
  lemma {:induction false} ReplayedInv(s: State, h: History, cs: seq<Change>)
    requires Inv(s, h) && Replayed(s.root, cs).Ok?
    ensures Inv(s.(root := Replayed(s.root, cs).value), h)
    ensures RootModel(Replayed(s.root, cs).value) == ApplyChanges(RootModel(s.root), cs)
  {
    if cs != [] {
      var front := cs[..|cs| - 1];
      ReplayedInv(s, h, front);
      ReplayOneInv(s.(root := Replayed(s.root, front).value), h, cs[|cs| - 1]);
    }
  }

  /** A leaf of the replayed tree is new exactly when its key was assigned. */
  lemma {:induction false} ReplayedLeaf(s: State, h: History, cs: seq<Change>, key: Bytes)
    requires Inv(s, h) && Replayed(s.root, cs).Ok? && SortedChanges(cs)
    ensures
      var m, r := RootLeafMap(s.root), RootLeafMap(Replayed(s.root, cs).value);
      key in r ==>
        if SetsKey(cs, key) then r[key].nk.None? else key in m && r[key] == m[key]
  {
    if cs != [] {
      var front, last := cs[..|cs| - 1], cs[|cs| - 1];
      SplitLast(cs, key);
      ReplayedInv(s, h, front);
      ReplayedLeaf(s, h, front, key);
      ReplayOneInv(s.(root := Replayed(s.root, front).value), h, last);
    }
  }

  /** Every deletion is of a key in the map. */
  predicate ErasesPresent(m: map<Bytes, Bytes>, cs: seq<Change>) {
    forall i :: 0 <= i < |cs| && cs[i].Erase? ==> cs[i].key in m
  }

  lemma {:induction false} ErasesOneMore(m: map<Bytes, Bytes>, front: seq<Change>, last: Change)
    ensures ErasesPresent(m, front + [last]) <==> ErasesPresent(m, front) && (last.Erase? ==> last.key in m)
  {
    var cs := front + [last];
    assert cs[|front|] == last;
    assert forall i :: 0 <= i < |front| ==> front[i] == cs[i];
  }

  lemma {:induction false} ReplayOneMore(root: Option<Node>, front: seq<Change>, last: Change)
    ensures Replayed(root, front + [last]) ==
      if Replayed(root, front).Ok? then ReplayOne(Replayed(root, front).value, last) else Replayed(root, front)
  {
    assert (front + [last])[..|front|] == front;
  }

  lemma {:induction false} LastKeyUntouched(m: map<Bytes, Bytes>, front: seq<Change>, last: Change)
    requires SortedChanges(front + [last])
    ensures SortedChanges(front)
    ensures last.key in ApplyChanges(m, front) <==> last.key in m
  {
    assert (front + [last])[..|front|] == front;
    SplitLast(front + [last], last.key);
    AppliedAt(m, front, last.key);
  }

  lemma {:induction false} LastReplays(s: State, h: History, front: seq<Change>, last: Change)
    requires Inv(s, h) && SortedChanges(front + [last]) && Replayed(s.root, front).Ok?
    ensures ReplayOne(Replayed(s.root, front).value, last).Ok? <==> last.Assign? || last.key in RootModel(s.root)
  {
    ReplayedInv(s, h, front);
    ReplayOneInv(s.(root := Replayed(s.root, front).value), h, last);
    LastKeyUntouched(RootModel(s.root), front, last);
  }

  /** Sorted changes can be replayed if and only if they delete only keys that exist. */
  lemma {:induction false} ReplaySucceeds(s: State, h: History, cs: seq<Change>)
    requires Inv(s, h) && SortedChanges(cs)
    ensures Replayed(s.root, cs).Ok? <==> ErasesPresent(RootModel(s.root), cs)
    decreases |cs|
  {
    if cs != [] {
      var front, last := Unsnoc(cs);
      LastKeyUntouched(RootModel(s.root), front, last);
      ReplaySucceeds(s, h, front);
      ReplayOneMore(s.root, front, last);
      ErasesOneMore(RootModel(s.root), front, last);
      if Replayed(s.root, front).Ok? {
        LastReplays(s, h, front, last);
      }
    }
  }

  // ----- Leaves and their versions -----

  lemma {:induction false} SavedLeaf(t: Node, key: Bytes)
    requires Saved(t) && key in LeafMap(t)
    ensures LeafMap(t)[key].nk.Some?
  {
    LeafMapNodes(t, key);
    NodesAreSaved(t, LeafMap(t)[key]);
  }

  /** Saving leaves keyed leaves alone and gives the others the new version. */
  lemma {:induction false} AssignedLeaf(t: Node, version: int, nonce: int, base: set<Node>, key: Bytes)
    requires KeptFrom(t, base) && (forall x {:trigger x in base} :: x in base ==> Saved(x)) && key in LeafMap(t)
    ensures
      var r := LeafMap(AssignKeys(t, version, nonce).node);
      && key in r && r[key].nk.Some?
      && (LeafMap(t)[key].nk.Some? ==> r[key] == LeafMap(t)[key])
      && (LeafMap(t)[key].nk.None? ==> KeyOf(r[key]).version == version)
  {
    if t.nk.Some? {
      SavedLeaf(t, key);
    } else if t.Inner? {
      var l := AssignKeys(t.left, version, nonce + 1);
      AssignKeepsTree(t.right, version, l.nonce);
      LeafMapIsModel(t.right);
      LeafMapIsModel(AssignKeys(t.right, version, l.nonce).node);
      if key in LeafMap(t.right) {
        AssignedLeaf(t.right, version, l.nonce, base, key);
      } else {
        AssignedLeaf(t.left, version, nonce + 1, base, key);
      }
    }
  }

  lemma {:induction false} KeptNode(t: Node, base: set<Node>, x: Node)
    requires KeptFrom(t, base) && Closed(base) && x in Nodes(t) && x.nk.Some?
    ensures x in base
  {
    if t.nk.Some? {
      KeptNodes(t, base);
    } else if x in Nodes(t.left) {
      KeptNode(t.left, base, x);
    } else {
      KeptNode(t.right, base, x);
    }
  }

  lemma {:induction false} OldInLast(s: State, h: History, x: Node)
    requires Inv(s, h) && x in RootNodes(s.lastSaved)
    ensures IsOld(x, h.hi)
  {
    LastIsGood(h);
    var t := Last(h).value;
    VersionsFall(t, if x == s.lastSaved.value then t else x);
  }

  /** A keyed leaf of the working tree is not newer than the latest version. */
  lemma {:induction false} KeptLeafIsOld(s: State, h: History, key: Bytes)
    requires Inv(s, h) && key in RootLeafMap(s.root) && RootLeafMap(s.root)[key].nk.Some?
    ensures IsOld(RootLeafMap(s.root)[key], h.hi)
  {
    var leaf := RootLeafMap(s.root)[key];
    LeafMapNodes(s.root.value, key);
    if s.root != s.lastSaved {
      DerivedBelow(h, s);
      KeptNode(s.root.value, Reusable(s.lastSaved), leaf);
    }
    OldInLast(s, h, leaf);
  }

  /** In the saved tree a leaf is old exactly when it was keyed before. */
  lemma {:induction false} SavedLeafAge(s: State, h: History, key: Bytes)
    requires Inv(s, h) && key in RootLeafMap(s.root)
    ensures
      var r := RootLeafMap(SavedRoot(s.root, h.hi + 1));
      key in r && (IsOld(r[key], h.hi) <==> RootLeafMap(s.root)[key].nk.Some?)
  {
    if RootLeafMap(s.root)[key].nk.Some? {
      KeptLeafIsOld(s, h, key);
    }
    if s.root.value.nk.Some? {
      SavedWorkLeaf(s, h, key);
    } else {
      DerivedSaves(h, s.lastSaved, s.root, h.hi + 1);
      ReusableSaved(s, h);
      AssignedLeaf(s.root.value, h.hi + 1, 0, Reusable(s.lastSaved), key);
    }
  }

  lemma {:induction false} ReusableSaved(s: State, h: History)
    requires Inv(s, h)
    ensures forall x {:trigger x in Reusable(s.lastSaved)} :: x in Reusable(s.lastSaved) ==> Saved(x)
  {
    forall x {:trigger x in Reusable(s.lastSaved)} | x in Reusable(s.lastSaved) ensures Saved(x) {
      SavedIsKeyed(h, s.lastSaved);
      NodesAreSaved(s.lastSaved.value, x);
    }
  }

  lemma {:induction false} SavedWorkLeaf(s: State, h: History, key: Bytes)
    requires Inv(s, h) && key in RootLeafMap(s.root) && s.root.value.nk.Some?
    ensures RootLeafMap(s.root)[key].nk.Some?
  {
    if s.root == s.lastSaved {
      SavedIsKeyed(h, s.lastSaved);
    } else {
      ReusableSaved(s, h);
    }
    SavedLeaf(s.root.value, key);
  }

  /** Moving a root does not change the age of any leaf. */
  lemma {:induction false} MovedLeafAge(r: Option<Node>, lo: int, v: int, key: Bytes)
    requires (r.Some? ==> r.value.nk.Some?) && key in RootLeafMap(r)
    ensures
      var c := AtRoot(Canon(r), lo);
      && RootModel(c) == RootModel(r)
      && key in RootLeafMap(c) && (IsOld(RootLeafMap(c)[key], v) <==> IsOld(RootLeafMap(r)[key], v))
  {
  }

  // ----- Extracting a replayed version -----

  /** The two roots `traverseStateChanges` compares; a version that does not exist counts as empty. */
  function TreeAt(db: Db, v: int): Option<Node> {
    var r := ReadVersion(db, v);
    if r.Ok? then r.value else None
  }

  /** A tree without reused nodes has its version in every node. */
  lemma {:induction false} FreshNode(t: Node, v: int, x: Node)
    requires KeptFrom(t, {}) && x in Nodes(AssignKeys(t, v, 0).node)
    ensures x.nk.Some? && KeyOf(x).version == v
  {
    AssignedNode(t, v, 0, {}, x);
  }

  lemma {:induction false} FreshTree(t: Node, v: int, a: Node)
    requires KeptFrom(t, {}) && Avl(t) && a == AssignKeys(t, v, 0).node
    ensures Avl(a) && Falling(a) && CopyOnWrite(None, Some(a), v - 1)
  {
    AssignedKeys(t, v, 0, {});
    AssignKeepsTree(t, v, 0);
    WellKeyedFalls(a);
    forall x {:trigger x in RootNodes(Some(a))} | x in RootNodes(Some(a)) ensures x.nk.Some? && KeyOf(x).version == v {
      FreshNode(t, v, x);
    }
  }

  lemma {:induction false} FreshRoot(t: Node, v: int, lo: int, a: Node)
    requires t.nk.None? && lo <= v && a == AssignKeys(t, v, 0).node
    ensures SavedRoot(Some(t), v) == Some(a) && a.nk.Some? && AtRoot(Canon(Some(a)), lo) == Some(a)
  {
    AssignedGrows(t, v, 0);
  }

  lemma {:induction false} EmptyWork(s: State, h: History)
    requires Inv(s, h) && IsEmpty(h) && s.root.Some?
    ensures s.root.value.nk.None? && KeptFrom(s.root.value, {}) && Avl(s.root.value) && h.lo == h.hi + 1
  {
  }

  lemma {:induction false} FirstConsecutive(s: State, h: History, r: Option<Node>)
    requires Inv(s, h) && IsEmpty(h) && r == SavedRoot(s.root, h.hi + 1)
    ensures (r.Some? ==> r.value.nk.Some?) && Consecutive(None, AtRoot(Canon(r), h.lo), h.hi)
  {
    if s.root.Some? {
      EmptyWork(s, h);
      FreshTree(s.root.value, h.hi + 1, r.value);
      FreshRoot(s.root.value, h.hi + 1, h.lo, r.value);
    }
  }

  /** After a save, the new version and the one before it read back as consecutive versions. */
  lemma {:induction false} SavedConsecutive(s: State, h: History)
    requires Inv(s, h) && Legal(s, h, SaveVersion)
    ensures
      var db, r := Apply(s.db, SaveOps(s.root, h.hi + 1)), SavedRoot(s.root, h.hi + 1);
      && (r.Some? ==> r.value.nk.Some?)
      && TreeAt(db, h.hi + 1) == AtRoot(Canon(r), h.lo)
      && RootModel(TreeAt(db, h.hi)) == RootModel(s.lastSaved)
      && Consecutive(TreeAt(db, h.hi), TreeAt(db, h.hi + 1), h.hi)
  {
    SaveExtendsStore(s.db, h, s.lastSaved, s.root);
    LastSavedModel(s, h);
    SaveReads(s, h, Apply(s.db, SaveOps(s.root, h.hi + 1)), Extend(h, Canon(SavedRoot(s.root, h.hi + 1))));
  }

  lemma {:induction false} SaveReads(s: State, h: History, db: Db, h': History)
    requires Inv(s, h) && Legal(s, h, SaveVersion) && Holds(db, h', h.lo) && Readable(h', h.lo)
    requires h' == Extend(h, Canon(SavedRoot(s.root, h.hi + 1)))
    ensures
      var r := SavedRoot(s.root, h.hi + 1);
      && (r.Some? ==> r.value.nk.Some?)
      && TreeAt(db, h.hi + 1) == AtRoot(Canon(r), h.lo)
      && RootModel(TreeAt(db, h.hi)) == RootModel(Last(h))
      && Consecutive(TreeAt(db, h.hi), TreeAt(db, h.hi + 1), h.hi)
  {
    VersionReadsBack(db, h', h.lo, h.hi + 1);
    if IsEmpty(h) {
      RootKeyPresent(db, h', h.lo, h.hi);
      FirstConsecutive(s, h, SavedRoot(s.root, h.hi + 1));
    } else {
      VersionReadsBack(db, h', h.lo, h.hi);
      StepOf(h', h.lo, h.hi);
      ReadConsecutive(h', h.lo, h.hi, h'.roots[h.hi], h'.roots[h.hi + 1]);
    }
  }

  /** After a save the new version reads back, and the one before it, if any, as it did before the save. */
  lemma {:induction false} SaveKeepsLast(s: State, h: History, db: Db, h': History)
    requires Inv(s, h) && Holds(db, h', h.lo) && Readable(h', h.lo)
    requires h' == Extend(h, Canon(SavedRoot(s.root, h.hi + 1)))
    ensures ReadVersion(db, h.hi + 1).Ok? && TreeAt(db, h.hi) == TreeAt(s.db, h.hi)
    ensures if IsEmpty(h) then GetRoot(db, h.hi).Err? else ReadVersion(db, h.hi).Ok?
  {
    VersionReadsBack(db, h', h.lo, h.hi + 1);
    if IsEmpty(h) {
      RootKeyPresent(db, h', h.lo, h.hi);
      RootKeyPresent(s.db, h, h.lo, h.hi);
    } else {
      VersionReadsBack(db, h', h.lo, h.hi);
      VersionReadsBack(s.db, h, h.lo, h.hi);
    }
  }

  lemma {:induction false} SavedTrees(s: State, h: History, db: Db)
    requires Inv(s, h) && Legal(s, h, SaveVersion) && db == Apply(s.db, SaveOps(s.root, h.hi + 1))
    ensures ReadVersion(db, h.hi + 1).Ok? && TreeAt(db, h.hi) == TreeAt(s.db, h.hi)
    ensures if IsEmpty(h) then GetRoot(db, h.hi).Err? else ReadVersion(db, h.hi).Ok?
    ensures Consecutive(TreeAt(db, h.hi), TreeAt(db, h.hi + 1), h.hi)
  {
    SaveExtendsStore(s.db, h, s.lastSaved, s.root);
    SaveKeepsLast(s, h, db, Extend(h, Canon(SavedRoot(s.root, h.hi + 1))));
    SavedConsecutive(s, h);
  }

  /** A root that passes the guard is the last saved tree or a part of it. */
  lemma {:induction false} WorkWithinLast(s: State, h: History, key: Bytes)
    requires Inv(s, h) && !Uncommitted(s.root) && key in RootModel(s.root)
    ensures key in RootModel(s.lastSaved)
  {
    if s.root != s.lastSaved {
      SavedIsKeyed(h, s.lastSaved);
      LeavesOfNodes(s.lastSaved.value, s.root.value);
      LeafMapIsModel(s.lastSaved.value);
      LeafMapIsModel(s.root.value);
    }
  }

  lemma {:induction false} OneChangePerKey(cs: seq<Change>, a: Change, b: Change)
    requires SortedChanges(cs) && a in cs && b in cs && a.key == b.key
    ensures a == b
  {
    var i :| 0 <= i < |cs| && cs[i] == a;
    var j :| 0 <= j < |cs| && cs[j] == b;
    Trichotomy(a.key, b.key);
  }

  /** A change set that can be replayed and saved. */
  ghost predicate Replays(s: State, h: History, cs: seq<Change>) {
    && Inv(s, h) && !Uncommitted(s.root) && SortedChanges(cs) && Replayed(s.root, cs).Ok?
    && Legal(s.(root := Replayed(s.root, cs).value), h, SaveVersion)
  }

  /** A key that was removed before the replay, without the guard noticing, and not set by it. */
  predicate LostBefore(s: State, cs: seq<Change>, key: Bytes) {
    key in RootModel(s.lastSaved) && key !in RootModel(s.root) && !SetsKey(cs, key)
  }

  /** In the replayed tree `w`, the leaf of a key is new if the key was set, and the same as before otherwise. */
  predicate LeafFollows(root: Option<Node>, cs: seq<Change>, w: Option<Node>, key: Bytes) {
    key in RootLeafMap(w) ==>
      if SetsKey(cs, key) then RootLeafMap(w)[key].nk.None?
      else key in RootLeafMap(root) && RootLeafMap(w)[key] == RootLeafMap(root)[key]
  }

  /** The working tree `w` is what replaying the changes leaves. */
  ghost predicate Leaves(s: State, h: History, cs: seq<Change>, w: Option<Node>) {
    && Inv(s, h) && !Uncommitted(s.root) && SortedChanges(cs)
    && Inv(s.(root := w), h) && Legal(s.(root := w), h, SaveVersion)
    && RootModel(w) == ApplyChanges(RootModel(s.root), cs)
    && ErasesPresent(RootModel(s.root), cs)
    && (forall key :: LeafFollows(s.root, cs, w, key))
  }

  lemma {:induction false} ReplayLeaves(s: State, h: History, cs: seq<Change>)
    requires Replays(s, h, cs)
    ensures Leaves(s, h, cs, Replayed(s.root, cs).value)
  {
    var w := Replayed(s.root, cs).value;
    ReplayedInv(s, h, cs);
    ReplaySucceeds(s, h, cs);
    forall key ensures LeafFollows(s.root, cs, w, key) {
      ReplayedLeaf(s, h, cs, key);
    }
  }

  lemma {:induction false} NewLeafIsSet(s: State, h: History, cs: seq<Change>, w: Option<Node>, c: Option<Node>,
                                        key: Bytes)
    requires Leaves(s, h, cs, w) && key in RootLeafMap(w)
    requires SavedRoot(w, h.hi + 1).Some? ==> SavedRoot(w, h.hi + 1).value.nk.Some?
    requires c == AtRoot(Canon(SavedRoot(w, h.hi + 1)), h.lo)
    ensures key in RootLeafMap(c) && (!IsOld(RootLeafMap(c)[key], h.hi) <==> SetsKey(cs, key))
  {
    assert LeafFollows(s.root, cs, w, key);
    if !SetsKey(cs, key) {
      SavedWorkLeaf(s, h, key);
    }
    SavedLeafAge(s.(root := w), h, key);
    MovedLeafAge(SavedRoot(w, h.hi + 1), h.lo, h.hi, key);
  }

  lemma {:induction false} SavedTreeModel(r: Option<Node>, v: int, lo: int)
    requires SavedRoot(r, v).Some? ==> SavedRoot(r, v).value.nk.Some?
    ensures RootModel(AtRoot(Canon(SavedRoot(r, v)), lo)) == RootModel(r)
  {
    SavedModel(r, v);
    SavedModel(SavedRoot(r, v), v);
  }

  lemma {:induction false} AssignSurvives(s: State, h: History, cs: seq<Change>, w: Option<Node>, c: Option<Node>,
                                          key: Bytes, value: Bytes)
    requires Leaves(s, h, cs, w)
    requires SavedRoot(w, h.hi + 1).Some? ==> SavedRoot(w, h.hi + 1).value.nk.Some?
    requires c == AtRoot(Canon(SavedRoot(w, h.hi + 1)), h.lo)
    ensures IsChange(None, c, h.hi, Assign(key, value)) <==> Assign(key, value) in cs
  {
    SavedTreeModel(w, h.hi + 1, h.lo);
    AppliedAt(RootModel(s.root), cs, key);
    RootLeaves(w, key);
    RootLeaves(c, key);
    if key in RootModel(w) {
      NewLeafIsSet(s, h, cs, w, c, key);
    }
    if Assign(key, value) in cs {
      MemberAssigned(cs, Assign(key, value));
      OneChangePerKey(cs, Assign(key, value), Assign(key, RootModel(w)[key]));
    }
  }

  lemma {:induction false} EraseSurvives(s: State, h: History, cs: seq<Change>, w: Option<Node>, key: Bytes)
    requires Leaves(s, h, cs, w)
    ensures key in RootModel(s.lastSaved) && key !in RootModel(w) <==> Erase(key) in cs || LostBefore(s, cs, key)
  {
    AppliedAt(RootModel(s.root), cs, key);
    ErasedIsMember(cs, key);
    if key in RootModel(s.root) {
      WorkWithinLast(s, h, key);
    }
  }

  lemma {:induction false} ChangeBetween(s: State, h: History, cs: seq<Change>, w: Option<Node>, p: Option<Node>,
                                         c: Option<Node>, ch: Change)
    requires Leaves(s, h, cs, w) && Consecutive(p, c, h.hi) && RootModel(p) == RootModel(s.lastSaved)
    requires SavedRoot(w, h.hi + 1).Some? ==> SavedRoot(w, h.hi + 1).value.nk.Some?
    requires c == AtRoot(Canon(SavedRoot(w, h.hi + 1)), h.lo)
    ensures SortedChanges(Changes(p, c))
    ensures ch in Changes(p, c) <==> ch in cs || (ch.Erase? && LostBefore(s, cs, ch.key))
  {
    ChangesAreExact(p, c, h.hi, ch);
    match ch
    case Assign(key, value) => AssignSurvives(s, h, cs, w, c, key, value);
    case Erase(key) =>
      SavedTreeModel(w, h.hi + 1, h.lo);
      EraseSurvives(s, h, cs, w, key);
  }

  lemma {:induction false} ChangeInStore(s: State, h: History, cs: seq<Change>, w: Option<Node>, db: Db,
                                         out: seq<Change>, ch: Change)
    requires Leaves(s, h, cs, w) && db == Apply(s.db, SaveOps(w, h.hi + 1))
    requires out == Changes(TreeAt(db, h.hi), TreeAt(db, h.hi + 1))
    ensures SortedChanges(out)
    ensures ch in out <==> ch in cs || (ch.Erase? && LostBefore(s, cs, ch.key))
  {
    SavedConsecutive(s.(root := w), h);
    ChangeBetween(s, h, cs, w, TreeAt(db, h.hi), TreeAt(db, h.hi + 1), ch);
  }

  lemma {:induction false} ExtractedExactly(s: State, h: History, cs: seq<Change>, w: Option<Node>, db: Db,
                                            out: seq<Change>)
    requires Leaves(s, h, cs, w) && db == Apply(s.db, SaveOps(w, h.hi + 1))
    requires out == Changes(TreeAt(db, h.hi), TreeAt(db, h.hi + 1))
    ensures out == cs <==> forall key :: !LostBefore(s, cs, key)
  {
    forall ch ensures ch in out <==> ch in cs || (ch.Erase? && LostBefore(s, cs, ch.key)) {
      ChangeInStore(s, h, cs, w, db, out, ch);
    }
    ChangeInStore(s, h, cs, w, db, out, Erase([]));
    if forall key :: !LostBefore(s, cs, key) {
      SameChanges(out, cs);
    } else {
      var key :| LostBefore(s, cs, key);
      ErasedIsMember(cs, key);
      assert Erase(key) in out;
    }
  }

  /**
   * Replaying a sorted change set and extracting the changes of the new version gives the change set back,
   * identical values included, if and only if no key had been removed unnoticed before and left out by it.
   */
  lemma {:induction false} ReplayRoundTrip(s: State, h: History, cs: seq<Change>)
    requires Replays(s, h, cs)
    ensures
      var n := Next(s.(root := Replayed(s.root, cs).value), SaveVersion);
      var out := Changes(TreeAt(n.db, h.hi), TreeAt(n.db, h.hi + 1));
      && (out == cs <==> forall key :: !LostBefore(s, cs, key))
      && (s.root == s.lastSaved ==> out == cs)
  {
    ReplayLeaves(s, h, cs);
    var w := Replayed(s.root, cs).value;
    RoundTripOf(s, h, cs, w, Next(s.(root := w), SaveVersion));
  }

  lemma {:induction false} NothingLost(s: State, cs: seq<Change>)
    requires s.root == s.lastSaved
    ensures forall key :: !LostBefore(s, cs, key)
  {
  }

  lemma {:induction false} RoundTrip(s: State, h: History, cs: seq<Change>, w: Option<Node>, db: Db, out: seq<Change>)
    requires Leaves(s, h, cs, w) && db == Apply(s.db, SaveOps(w, h.hi + 1))
    requires out == Changes(TreeAt(db, h.hi), TreeAt(db, h.hi + 1))
    ensures out == cs <==> forall key :: !LostBefore(s, cs, key)
    ensures s.root == s.lastSaved ==> out == cs
  {
    ExtractedExactly(s, h, cs, w, db, out);
    if s.root == s.lastSaved {
      NothingLost(s, cs);
    }
  }

  lemma {:induction false} RoundTripOf(s: State, h: History, cs: seq<Change>, w: Option<Node>, n: State)
    requires Leaves(s, h, cs, w) && n == Finish(s.(root := w), Save(s.(root := w)))
    ensures
      var out := Changes(TreeAt(n.db, h.hi), TreeAt(n.db, h.hi + 1));
      && (out == cs <==> forall key :: !LostBefore(s, cs, key))
      && (s.root == s.lastSaved ==> out == cs)
  {
    StoreAfterSave(s.(root := w), h, n);
    RoundTrip(s, h, cs, w, n.db, Changes(TreeAt(n.db, h.hi), TreeAt(n.db, h.hi + 1)));
  }

  /**
   * Between any two consecutive retained versions, the changes turn the older map into the newer one and delete only
   * keys that existed.
   */
  lemma {:induction false} RetainedChanges(s: State, h: History, v: int)
    requires Inv(s, h) && h.lo <= v < h.hi
    ensures ReadVersion(s.db, v).Ok? && ReadVersion(s.db, v + 1).Ok?
    ensures
      var p, c := TreeAt(s.db, v), TreeAt(s.db, v + 1);
      && Consecutive(p, c, v) && SortedChanges(Changes(p, c))
      && ApplyChanges(RootModel(p), Changes(p, c)) == RootModel(c)
      && forall i :: 0 <= i < |Changes(p, c)| && Changes(p, c)[i].Erase? ==> Changes(p, c)[i].key in RootModel(p)
  {
    RetainedConsecutive(s.db, h, v);
    var p, c := TreeAt(s.db, v), TreeAt(s.db, v + 1);
    ChangesAreExact(p, c, v, Erase([]));
    ChangesTransform(p, c, v);
    forall i | 0 <= i < |Changes(p, c)| && Changes(p, c)[i].Erase? ensures Changes(p, c)[i].key in RootModel(p) {
      ChangesAreExact(p, c, v, Changes(p, c)[i]);
    }
  }

  lemma {:induction false} RetainedConsecutive(db: Db, h: History, v: int)
    requires Holds(db, h, h.lo) && Readable(h, h.lo) && h.lo <= v < h.hi
    ensures ReadVersion(db, v).Ok? && ReadVersion(db, v + 1).Ok?
    ensures Consecutive(TreeAt(db, v), TreeAt(db, v + 1), v)
  {
    VersionReadsBack(db, h, h.lo, v);
    VersionReadsBack(db, h, h.lo, v + 1);
    StepOf(h, h.lo, v);
    ReadConsecutive(h, h.lo, v, h.roots[v], h.roots[v + 1]);
  }
}
