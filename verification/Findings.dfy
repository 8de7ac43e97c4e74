/**
 * Short runs that show where reads and change sets go wrong: the empty key, a load over unsaved changes, and a
 * removal that SaveChangeSet does not notice.
 */
module Findings {
  import opened Base
  import opened Trees
  import opened Update
  import opened Store
  import opened Saving
  import opened Machine
  import opened Runs
  import opened SafeRuns
  import opened FastIndex
  import opened Diff
  import opened ChangeSets
  import opened Replay

  // ----- Reads -----

  lemma {:induction false} FastStep(ops: seq<Op>, k: int)
    requires 0 <= k < |ops| && LegalFastRun(0, false, ops[..k])
    requires var c := FastRun(0, false, ops[..k]); Complete(c.h) && FastLegal(c.f, c.h, ops[k])
    ensures LegalFastRun(0, false, ops[..k + 1])
    ensures
      var c, d := FastRun(0, false, ops[..k]), FastRun(0, false, ops[..k + 1]);
      d.f == FastNext(c.f, ops[k]) && d.h == NextHistory(c.h, c.f.tree, ops[k])
  {
    assert ops[..k + 1][..k] == ops[..k] && ops[..k + 1][k] == ops[k];
  }

  /** A set, seen from outside. */
  ghost predicate Adds(c: FastConfig, d: FastConfig, key: Bytes, value: Bytes) {
    && d.h == c.h && d.f.skip == c.f.skip && d.f.tree.version == c.f.tree.version
    && d.f.additions == c.f.additions[key := FastNode(c.f.tree.version + 1, value)]
  }

  lemma {:induction false} SetAdds(c: FastConfig, d: FastConfig, key: Bytes, value: Bytes)
    requires !c.f.skip && d.f == FastNext(c.f, Set(key, value)) && d.h == NextHistory(c.h, c.f.tree, Set(key, value))
    ensures Adds(c, d, key, value)
  {
  }

  lemma {:induction false} FastSetStep(ops: seq<Op>, k: int, key: Bytes, value: Bytes)
    requires 0 <= k < |ops| && ops[k] == Set(key, value) && LegalFastRun(0, false, ops[..k])
    requires !FastRun(0, false, ops[..k]).f.skip
    ensures LegalFastRun(0, false, ops[..k + 1])
    ensures Adds(FastRun(0, false, ops[..k]), FastRun(0, false, ops[..k + 1]), key, value)
  {
    FastRunInv(0, false, ops[..k]);
    FastStep(ops, k);
    SetAdds(FastRun(0, false, ops[..k]), FastRun(0, false, ops[..k + 1]), key, value);
  }

  lemma {:induction false} FastSaveStep(ops: seq<Op>, k: int)
    requires 0 <= k < |ops| && ops[k] == SaveVersion && LegalFastRun(0, false, ops[..k])
    requires var c := FastRun(0, false, ops[..k]); IsEmpty(c.h) && !c.f.skip
    ensures LegalFastRun(0, false, ops[..k + 1])
    ensures var d := FastRun(0, false, ops[..k + 1]);
      !d.f.skip && d.h.hi == d.h.lo && d.f.tree.version == d.h.hi && d.f.liveVersion == Some(d.h.hi)
        && d.f.additions == map[]
  {
    FastRunInv(0, false, ops[..k]);
    var c := FastRun(0, false, ops[..k]);
    NothingMoved(c.f.tree, c.h);
    FastStep(ops, k);
    FastSaveGives(c.f, c.h);
  }

  /** The first save reuses nothing. */
  lemma {:induction false} NothingMoved(s: State, h: History)
    requires Inv(s, h) && IsEmpty(h)
    ensures Legal(s, h, SaveVersion)
  {
  }

  lemma {:induction false} FirstSave(ops: seq<Op>)
    requires |ops| >= 2 && ops[0].Set? && ops[1] == SaveVersion
    ensures LegalFastRun(0, false, ops[..2])
    ensures var d := FastRun(0, false, ops[..2]);
      && !d.f.skip && d.h.lo == d.h.hi == 1 && d.f.tree.version == 1 && d.f.liveVersion == Some(1)
      && d.f.additions == map[]
      && 1 in d.h.roots && RootModel(d.h.roots[1]) == map[ops[0].key := ops[0].value]
  {
    assert ops[..0] == [];
    FastSetStep(ops, 0, ops[0].key, ops[0].value);
    FastSaveStep(ops, 1);
    FastRunSpec(0, false, ops[..2]);
    SavedOne(ops);
  }

  lemma {:induction false} SpecStep(ops: seq<Op>, k: int)
    requires 0 <= k < |ops|
    ensures SpecRun(0, ops[..k + 1]) == SpecNext(SpecRun(0, ops[..k]), ops[k])
  {
    assert ops[..k + 1][..k] == ops[..k];
  }

  lemma {:induction false} SavedOne(ops: seq<Op>)
    requires |ops| >= 2 && ops[0].Set? && ops[1] == SaveVersion
    ensures var sp := SpecRun(0, ops[..2]);
      sp.lo == 1 && sp.hi == 1 && sp.saved == map[1 := map[ops[0].key := ops[0].value]]
  {
    assert ops[..0] == [];
    SpecStep(ops, 0);
    SpecStep(ops, 1);
  }

  /** The empty key is saved, but reading it from the latest version finds nothing. */
  lemma {:induction false} EmptyKeyIsMissed(ops: seq<Op>)
    requires |ops| == 2 && ops[0] == Set([], [7]) && ops[1] == SaveVersion
    ensures LegalFastRun(0, false, ops)
    ensures GetVersioned(FastRun(0, false, ops).f, [], 1) == None && SpecRun(0, ops).saved == map[1 := map[[] := [7]]]
  {
    assert ops[..2] == ops;
    FirstSave(ops);
    SavedOne(ops);
    FastRunInv(0, false, ops);
    var c := FastRun(0, false, ops);
    SearchFinds(c.f.tree, c.h);
    SearchFinds(Searched(c.f.tree), c.h);
  }

  /** A value is saved and overwritten, and the saved version loaded again: the read returns the overwritten value. */
  lemma {:induction false} OverlayIsStale(ops: seq<Op>, key: Bytes, u: Bytes, w: Bytes)
    requires u != w && |ops| == 4
    requires ops[0] == Set(key, u) && ops[1] == SaveVersion && ops[2] == Set(key, w)
    requires ops[3] == LoadVersionForOverwriting(1)
    ensures LegalFastRun(0, false, ops[..3])
    ensures var f := FastRun(0, false, ops).f; Get(f, key) != PlainGet(f.tree.root, key)
  {
    FirstSave(ops);
    FastSetStep(ops, 2, key, w);
    FastRunInv(0, false, ops[..3]);
    assert ops[..4] == ops && ops[..4][..3] == ops[..3] && ops[..4][3] == ops[3];
    StaleAt(FastRun(0, false, ops[..3]), FastRun(0, false, ops).f, key, u, w);
  }

  lemma {:induction false} StaleAt(c: FastConfig, g: FastState, key: Bytes, u: Bytes, w: Bytes)
    requires FastInv(c.f, c.h) && !c.f.skip && c.h.lo == c.h.hi == 1 && 1 in c.h.roots
    requires RootModel(c.h.roots[1]) == map[key := u] && u != w
    requires key in c.f.additions && c.f.additions[key].value == w && g == FastNext(c.f, LoadVersionForOverwriting(1))
    ensures Get(g, key) != PlainGet(g.tree.root, key)
  {
    var m := RootModel(c.h.roots[1]);
    assert key in m && m[key] == u;
    StaleOverlay(c.f, c.h, 1, key);
  }

  // ----- Change sets -----

  /** Two keys are saved and the lesser is removed: what is left is a saved leaf, so the tree looks committed. */
  predicate RemovesOne(ops: seq<Op>, a: Bytes, b: Bytes) {
    Less(a, b) && |ops| == 4 && ops[0] == Set(a, []) && ops[1] == Set(b, []) && ops[2] == SaveVersion
      && ops[3] == Remove(a)
  }

  function NewPair(a: Bytes, b: Bytes): Node {
    Inner(None, b, 1, 2, NewLeaf(a, []), NewLeaf(b, []))
  }

  function SavedPair(a: Bytes, b: Bytes): Node {
    Inner(Some(NodeKey(1, 1)), b, 1, 2, Leaf(Some(NodeKey(1, 2)), a, []), Leaf(Some(NodeKey(1, 3)), b, []))
  }

  lemma {:induction false} PairSaves(a: Bytes, b: Bytes)
    requires Less(a, b)
    ensures Update.Set(Some(NewLeaf(a, [])), b, []) == Ok(Updated(NewPair(a, b), false))
    ensures SavedRoot(Some(NewPair(a, b)), 1) == Some(SavedPair(a, b))
  {
    Trichotomy(a, b);
    assert AssignKeys(NewLeaf(a, []), 1, 1) == Saving.Assigned(Leaf(Some(NodeKey(1, 2)), a, []), 2);
    assert AssignKeys(NewLeaf(b, []), 1, 2) == Saving.Assigned(Leaf(Some(NodeKey(1, 3)), b, []), 3);
  }

  lemma {:induction false} PairShrinks(a: Bytes, b: Bytes)
    requires Less(a, b)
    ensures Update.Remove(Some(SavedPair(a, b)), a) == Ok(Removal(Some(SavedPair(a, b).right), Some(b), Some([]), true))
    ensures a in Model(SavedPair(a, b)) && a !in Model(SavedPair(a, b).right)
  {
    Trichotomy(a, b);
    assert RecursiveRemove(SavedPair(a, b).left, a) == Ok(Removal(None, None, Some([]), true));
    assert a in Model(SavedPair(a, b).left);
  }

  lemma {:induction false} PairInTree(ops: seq<Op>, a: Bytes, b: Bytes)
    requires RemovesOne(ops, a, b)
    ensures LegalRun(0, ops[..2])
    ensures var c := RunOf(0, ops[..2]);
      c.s.root == Some(NewPair(a, b)) && c.s.lastSaved == None && c.h == History(1, 0, map[])
  {
    assert ops[..0] == [];
    StartInv(0);
    PairSaves(a, b);
    SetInRun(ops, 0);
    SetInRun(ops, 1);
  }

  lemma {:induction false} PairSaved(ops: seq<Op>, a: Bytes, b: Bytes)
    requires RemovesOne(ops, a, b)
    ensures LegalRun(0, ops[..3])
    ensures var c := RunOf(0, ops[..3]); c.s.root == Some(SavedPair(a, b)) && c.s.lastSaved == Some(SavedPair(a, b))
  {
    PairInTree(ops, a, b);
    SaveIsLegal(ops, 2);
    RunSound(0, ops[..2]);
    SaveInRun(ops, 2);
    PairConfig(RunOf(0, ops[..2]), RunOf(0, ops[..3]), a, b);
  }

  lemma {:induction false} PairConfig(c: Config, d: Config, a: Bytes, b: Bytes)
    requires Less(a, b) && c.s.root == Some(NewPair(a, b)) && c.h.hi == 0 && SavedTo(c, d)
    ensures d.s.root == Some(SavedPair(a, b)) && d.s.lastSaved == Some(SavedPair(a, b))
  {
    PairSaves(a, b);
  }

  /** Removing the first key of the pair leaves its saved right leaf. */
  lemma {:induction false} RemovedConfig(c: Config, d: Config, a: Bytes, b: Bytes)
    requires Less(a, b) && c.s.root == Some(SavedPair(a, b)) && d.s == Next(c.s, Remove(a))
    ensures d.s.root == Some(SavedPair(a, b).right) && d.s.lastSaved == c.s.lastSaved
  {
    PairShrinks(a, b);
  }

  lemma {:induction false} RemoveInRun(ops: seq<Op>, k: int)
    requires 0 <= k < |ops| && ops[k].Remove? && LegalRun(0, ops[..k])
    ensures LegalRun(0, ops[..k + 1])
  {
    RunSound(0, ops[..k]);
    LegalStep(ops, k);
  }

  lemma {:induction false} PairRemoved(ops: seq<Op>, a: Bytes, b: Bytes)
    requires RemovesOne(ops, a, b)
    ensures LegalRun(0, ops[..4])
    ensures var c := RunOf(0, ops[..4]);
      c.s.root == Some(SavedPair(a, b).right) && c.s.lastSaved == Some(SavedPair(a, b))
  {
    PairSaved(ops, a, b);
    RemoveInRun(ops, 3);
    var c, d := RunsAround(0, ops, 3);
    RemovedConfig(c, d, a, b);
  }

  /** A removal the guard lets through although the store after the save shows it as a change. */
  ghost predicate Unnoticed(s: State, h: History, key: Bytes, db: Db) {
    !Uncommitted(s.root) && LostBefore(s, [], key) && Changes(TreeAt(db, h.hi), TreeAt(db, h.hi + 1)) != []
  }

  /** The guard of SaveChangeSet does not notice the removal, and an empty change set is extracted as a deletion. */
  lemma {:induction false} RemovalIsUnnoticed(ops: seq<Op>, a: Bytes, b: Bytes)
    requires RemovesOne(ops, a, b)
    ensures LegalRun(0, ops)
    ensures
      var c := RunOf(0, ops);
      Unnoticed(c.s, c.h, a, Next(c.s, SaveVersion).db)
  {
    PairRemoved(ops, a, b);
    assert ops[..4] == ops;
    RunSound(0, ops);
    PairShrinks(a, b);
    NotCommitted(RunOf(0, ops).s, RunOf(0, ops).h, a, Next(RunOf(0, ops).s, SaveVersion));
  }

  /** A saved root other than the last saved one hides a removal. */
  lemma {:induction false} NotCommitted(s: State, h: History, key: Bytes, n: State)
    requires Inv(s, h) && s.lastSaved.Some? && s.lastSaved.value.Inner? && s.root.Some? && s.root.value.nk.Some?
    requires key in RootModel(s.lastSaved) && key !in RootModel(s.root) && n == Finish(s, Save(s))
    ensures Unnoticed(s, h, key, n.db)
  {
    NothingReplayed(s, h);
    RoundTripOf(s, h, [], s.root, n);
    assert LostBefore(s, [], key);
  }

  lemma {:induction false} NothingReplayed(s: State, h: History)
    requires Inv(s, h) && s.lastSaved.Some? && s.lastSaved.value.Inner? && !Uncommitted(s.root)
    ensures Leaves(s, h, [], s.root)
  {
    assert s.(root := s.root) == s;
    assert ApplyChanges(RootModel(s.root), []) == RootModel(s.root);
    assert forall key :: LeafFollows(s.root, [], s.root, key);
  }
}
