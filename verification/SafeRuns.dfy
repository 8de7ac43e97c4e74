/**
 * Runs a caller can see to be legal: no version with exactly one key is ever saved, and no overwriting load
 * targets version 0 or -1. And two short runs, one for each way in which the rest can go wrong.
 */
module SafeRuns {
  import opened Base
  import opened Trees
  import opened Update
  import opened Store
  import opened Layout
  import opened Saving
  import opened Pruning
  import opened Machine
  import opened Runs

  predicate SafeStep(sp: Spec, op: Op) {
    match op
    case SaveVersion => |sp.work| != 1
    case LoadVersionForOverwriting(target) => sp.lo > sp.hi || !(-1 <= target <= 0)
    case _ => true
  }

  predicate SafeRun(initialVersion: nat, ops: seq<Op>) {
    ops != [] ==>
      && SafeRun(initialVersion, ops[..|ops| - 1])
      && SafeStep(SpecRun(initialVersion, ops[..|ops| - 1]), ops[|ops| - 1])
  }

  /** No version has a leaf for its root. */
  ghost predicate NoLeafRoots(h: History) {
    forall v {:trigger h.roots[v]} :: v in h.roots && h.roots[v].Some? ==> h.roots[v].value.Inner?
  }

  /** A leaf at nonce 1 is the root of its own version, if that is retained. */
  lemma {:induction false} NonceOneIsRoot(h: History, w: int, x: Node)
    requires GoodHistory(h) && InSpan(h, w) && x in RootNodes(h.roots[w])
    requires x.nk.Some? && KeyOf(x).nonce == 1 && h.lo <= KeyOf(x).version
    ensures InSpan(h, KeyOf(x).version) && h.roots[KeyOf(x).version] == Some(x)
  {
    var u := KeyOf(x).version;
    assert GoodVersion(h, w);
    VersionsFall(h.roots[w].value, x);
    OldNodesPersist(h, u, w, x);
    assert GoodVersion(h, u);
    var t := h.roots[u].value;
    VersionsFall(t, x);
    assert t in Nodes(t);
  }

  lemma {:induction false} ProperAtNonceOne(h: History, w: int, x: Node)
    requires GoodHistory(h) && InSpan(h, w) && x in RootProperNodes(h.roots[w])
    requires x.nk.Some? && KeyOf(x).nonce == 1
    ensures x.Leaf?
  {
    assert GoodVersion(h, w);
    VersionsFall(h.roots[w].value, x);
    NotBelowItself(h.roots[w].value);
  }

  /** Without leaf roots every prune is clean. */
  lemma {:induction false} NoLeafRootsPrune(h: History, to: int)
    requires GoodHistory(h) && Readable(h, h.lo) && NoLeafRoots(h) && h.lo <= to < h.hi
    ensures PruneIsClean(h, h.lo, to)
  {
    forall v | h.lo <= v <= to ensures !LeafReused(h, v) {
      if LeafReused(h, v) {
        var x :| x in RootProperNodes(h.roots[v + 1]) && x.nk == Some(RootKey(v));
        ProperAtNonceOne(h, v + 1, x);
        NonceOneIsRoot(h, v + 1, x);
      }
    }
    forall w, x {:trigger x in RootProperNodes(h.roots[w])} |
      to + 1 <= w <= h.hi && x in RootProperNodes(h.roots[w]) && x.nk.Some?
      ensures At(x, to + 1) == KeyOf(x)
    {
      assert InSpan(h, w);
      if KeyOf(x).nonce == 1 {
        assert At(x, h.lo) == KeyOf(x);
        ProperAtNonceOne(h, w, x);
        NonceOneIsRoot(h, w, x);
      }
    }
  }

  lemma {:induction false} LeafModel(t: Node)
    requires t.Leaf?
    ensures |Model(t)| == 1
  {
    assert Model(t).Keys == {t.key};
  }

  lemma {:induction false} SafeIsLegal(s: State, h: History, op: Op)
    requires Inv(s, h) && NoLeafRoots(h) && SafeStep(SpecOf(s, h), op)
    ensures Legal(s, h, op)
  {
    match op
    case SaveVersion =>
      if s.lastSaved.Some? {
        LastIsGood(h);
        assert h.roots[h.hi].value.Inner?;
      }
    case DeleteVersionsTo(to) =>
      if h.lo <= to < h.hi {
        NoLeafRootsPrune(h, to);
      }
    case _ =>
  }

  lemma {:induction false} SavedShape(root: Option<Node>, v: int)
    ensures root.None? <==> Canon(SavedRoot(root, v)).None?
    ensures root.Some? ==> Canon(SavedRoot(root, v)).value.Leaf? == root.value.Leaf?
  {
    if root.Some? {
      AssignKeepsTree(root.value, v, 0);
    }
  }

  /** A save that is not of a single key adds no leaf root. */
  lemma {:induction false} SaveKeepsNoLeafRoots(h: History, root: Option<Node>, h': History)
    requires NoLeafRoots(h) && |RootModel(root)| != 1 && h' == Extend(h, Canon(SavedRoot(root, h.hi + 1)))
    ensures NoLeafRoots(h')
  {
    SavedShape(root, h.hi + 1);
    if root.Some? && root.value.Leaf? {
      LeafModel(root.value);
    }
  }

  /** Every other step only drops versions. */
  lemma {:induction false} OthersKeepNoLeafRoots(h: History, s: State, op: Op)
    requires NoLeafRoots(h) && !op.SaveVersion?
    ensures NoLeafRoots(NextHistory(h, s, op))
  {
    match op
    case DeleteVersionsTo(to) =>
    case LoadVersionForOverwriting(target) =>
    case _ =>
  }

  lemma {:induction false} SafeKeepsNoLeafRoots(s: State, h: History, op: Op)
    requires NoLeafRoots(h) && SafeStep(SpecOf(s, h), op)
    ensures NoLeafRoots(NextHistory(h, s, op))
  {
    if op.SaveVersion? {
      SaveStep(s, h);
      SaveKeepsNoLeafRoots(h, s.root, NextHistory(h, s, op));
    } else {
      OthersKeepNoLeafRoots(h, s, op);
    }
  }

  lemma {:induction false} SafeRunIsLegal(initialVersion: nat, ops: seq<Op>)
    requires SafeRun(initialVersion, ops)
    ensures LegalRun(initialVersion, ops) && NoLeafRoots(RunOf(initialVersion, ops).h)
  {
    if ops != [] {
      var front, op := ops[..|ops| - 1], ops[|ops| - 1];
      SafeRunIsLegal(initialVersion, front);
      RunInv(initialVersion, front);
      var c := RunOf(initialVersion, front);
      SafeIsLegal(c.s, c.h, op);
      SafeKeepsNoLeafRoots(c.s, c.h, op);
    }
  }

  /** Every safe run, with any mix of saves, prunes, overwriting loads and reopenings, refines the simple form. */
  lemma {:induction false} SafeRunRefines(initialVersion: nat, ops: seq<Op>)
    requires SafeRun(initialVersion, ops)
    ensures Shows(RunOf(initialVersion, ops).s, SpecRun(initialVersion, ops))
  {
    SafeRunIsLegal(initialVersion, ops);
    RunRefines(initialVersion, ops);
  }

  // ----- What goes wrong otherwise -----

  const A: Bytes := [1]
  const B: Bytes := [2]

  const LEAF_A := Leaf(Some(NodeKey(1, 1)), A, [])

  lemma {:induction false} LegalStep(ops: seq<Op>, k: int)
    requires 0 <= k < |ops| && LegalRun(0, ops[..k])
    requires var c := RunOf(0, ops[..k]); Complete(c.h) && Legal(c.s, c.h, ops[k])
    ensures LegalRun(0, ops[..k + 1])
  {
    assert ops[..k + 1][..k] == ops[..k] && ops[..k + 1][k] == ops[k];
  }

  lemma {:induction false} SaveOutcome(s: State, h: History, n: State)
    requires Inv(s, h) && n == Finish(s, Save(s))
    ensures n.root == SavedRoot(s.root, h.hi + 1) && n.lastSaved == SavedRoot(s.root, h.hi + 1)
  {
    SaveSucceeds(s, h);
  }

  lemma {:induction false} SaveIsLegal(ops: seq<Op>, k: int)
    requires 0 <= k < |ops| && ops[k] == SaveVersion && LegalRun(0, ops[..k])
    requires var c := RunOf(0, ops[..k]); !ReusesMovedLeaf(c.s.root, c.s.lastSaved, c.h.lo)
    ensures LegalRun(0, ops[..k + 1])
  {
    RunSound(0, ops[..k]);
    LegalStep(ops, k);
  }

  /** A save takes `c` to `d`, seen from outside. */
  ghost predicate SavedTo(c: Config, d: Config) {
    var r := SavedRoot(c.s.root, c.h.hi + 1);
    d.s.root == r && d.s.lastSaved == r && d.h == Extend(c.h, Canon(r))
  }

  lemma {:induction false} SavedConfig(c: Config, d: Config)
    requires Inv(c.s, c.h) && d.s == Next(c.s, SaveVersion) && d.h == NextHistory(c.h, c.s, SaveVersion)
    ensures SavedTo(c, d)
  {
    SaveStep(c.s, c.h);
    SaveOutcome(c.s, c.h, d.s);
  }

  lemma {:induction false} SaveInRun(ops: seq<Op>, k: int)
    requires 0 <= k < |ops| && ops[k] == SaveVersion && Inv(RunOf(0, ops[..k]).s, RunOf(0, ops[..k]).h)
    ensures SavedTo(RunOf(0, ops[..k]), RunOf(0, ops[..k + 1]))
  {
    RunStep(0, ops, k);
    SavedConfig(RunOf(0, ops[..k]), RunOf(0, ops[..k + 1]));
  }

  lemma {:induction false} SetInRun(ops: seq<Op>, k: int)
    requires 0 <= k < |ops| && ops[k].Set? && LegalRun(0, ops[..k])
    ensures LegalRun(0, ops[..k + 1])
    ensures
      var c, d := RunOf(0, ops[..k]), RunOf(0, ops[..k + 1]);
      var r := Update.Set(c.s.root, ops[k].key, ops[k].value);
      d.h == c.h && (r.Ok? ==> d.s == c.s.(root := Some(r.value.node)))
  {
    RunSound(0, ops[..k]);
    LegalStep(ops, k);
    RunStep(0, ops, k);
  }

  /** One key is saved twice, then a second key is added and saved. */
  predicate TwoKeys(ops: seq<Op>) {
    |ops| >= 5 && ops[0] == Set(A, []) && ops[1] == SaveVersion && ops[2] == SaveVersion && ops[3] == Set(B, [])
      && ops[4] == SaveVersion
  }

  lemma {:induction false} LeafSavedTwice(ops: seq<Op>)
    requires TwoKeys(ops)
    ensures LegalRun(0, ops[..3])
    ensures var c := RunOf(0, ops[..3]);
      && c.s.root == Some(LEAF_A) && c.s.lastSaved == Some(LEAF_A)
      && c.h == History(1, 2, map[1 := Some(LEAF_A), 2 := Some(LEAF_A)])
  {
    LeafSavedOnce(ops);
    SaveIsLegal(ops, 2);
    RunSound(0, ops[..2]);
    SaveInRun(ops, 2);
  }

  /** Saving a first leaf into an empty store. */
  lemma {:induction false} FirstLeaf(c: Config, d: Config)
    requires c.s.root == Some(NewLeaf(A, [])) && c.h == History(1, 0, map[]) && SavedTo(c, d)
    ensures d.s.root == Some(LEAF_A) && d.s.lastSaved == Some(LEAF_A) && d.h == History(1, 1, map[1 := Some(LEAF_A)])
  {
  }

  lemma {:induction false} LeafSet(ops: seq<Op>)
    requires |ops| >= 1 && ops[0] == Set(A, [])
    ensures LegalRun(0, ops[..1])
    ensures var c := RunOf(0, ops[..1]);
      c.s.root == Some(NewLeaf(A, [])) && c.s.lastSaved == None && c.h == History(1, 0, map[])
  {
    assert ops[..0] == [];
    StartInv(0);
    SetInRun(ops, 0);
  }

  lemma {:induction false} LeafSavedOnce(ops: seq<Op>)
    requires |ops| >= 2 && ops[0] == Set(A, []) && ops[1] == SaveVersion
    ensures LegalRun(0, ops[..2])
    ensures var c := RunOf(0, ops[..2]);
      && c.s.root == Some(LEAF_A) && c.s.lastSaved == Some(LEAF_A)
      && c.h == History(1, 1, map[1 := Some(LEAF_A)])
  {
    LeafSet(ops);
    SaveIsLegal(ops, 1);
    RunSound(0, ops[..1]);
    SaveInRun(ops, 1);
    FirstLeaf(RunOf(0, ops[..1]), RunOf(0, ops[..2]));
  }

  const TREE_AB := Inner(None, B, 1, 2, LEAF_A, NewLeaf(B, []))

  lemma {:induction false} SetSecondKey()
    ensures Update.Set(Some(LEAF_A), B, []) == Ok(Updated(TREE_AB, false))
    ensures AssignKeys(TREE_AB, 3, 0).node.Inner? && AssignKeys(TREE_AB, 3, 0).node.left == LEAF_A
    ensures AssignKeys(TREE_AB, 3, 0).node.nk == Some(NodeKey(3, 1))
  {
    assert LessFrom(A, B, 0);
    Trichotomy(A, B);
  }

  lemma {:induction false} SecondKeySet(ops: seq<Op>)
    requires TwoKeys(ops)
    ensures LegalRun(0, ops[..4])
    ensures var c := RunOf(0, ops[..4]);
      && c.s.root == Some(TREE_AB) && c.s.lastSaved == Some(LEAF_A)
      && c.h == History(1, 2, map[1 := Some(LEAF_A), 2 := Some(LEAF_A)])
  {
    LeafSavedTwice(ops);
    SetInRun(ops, 3);
    SetSecondKey();
  }

  /** Version 2 is the leaf, and version 3 has it below its root. */
  ghost predicate LeafBelow(h: History) {
    && h.lo == 1 && h.hi == 3 && 3 in h.roots && 2 in h.roots
    && h.roots[2] == Some(LEAF_A) && LEAF_A in RootProperNodes(h.roots[3])
  }

  lemma {:induction false} ThirdVersion(c: Config, d: Config)
    requires c.s.root == Some(TREE_AB) && c.h == History(1, 2, map[1 := Some(LEAF_A), 2 := Some(LEAF_A)])
    requires SavedTo(c, d)
    ensures LeafBelow(d.h)
  {
    SetSecondKey();
  }

  lemma {:induction false} LeafReusedBelow(ops: seq<Op>)
    requires TwoKeys(ops)
    ensures LegalRun(0, ops[..5]) && LeafBelow(RunOf(0, ops[..5]).h)
  {
    SecondKeySet(ops);
    SaveIsLegal(ops, 4);
    RunSound(0, ops[..4]);
    SaveInRun(ops, 4);
    ThirdVersion(RunOf(0, ops[..4]), RunOf(0, ops[..5]));
  }

  /** Pruning the first version moves the leaf, and version 3, which uses it below its root, cannot be read any more. */
  lemma {:induction false} LeafRootIsLost(ops: seq<Op>)
    requires TwoKeys(ops) && |ops| == 6 && ops[5] == DeleteVersionsTo(1)
    ensures LegalRun(0, ops[..5]) && !LegalRun(0, ops)
    ensures ReadVersion(RunOf(0, ops).s.db, 3) == Err(MissingNode)
  {
    LeafReusedBelow(ops);
    RunSound(0, ops[..5]);
    var c, d := RunsAround(0, ops, 5);
    assert ops[..6] == ops;
    PruneLosesLeaf(c.s, c.h);
    IllegalLast(ops, c);
  }

  lemma {:induction false} IllegalLast(ops: seq<Op>, c: Config)
    requires ops != [] && c == RunOf(0, ops[..|ops| - 1]) && Complete(c.h) && !Legal(c.s, c.h, ops[|ops| - 1])
    ensures !LegalRun(0, ops)
  {
  }

  lemma {:induction false} LeafIsLost(db: Db, h: History, d: Db)
    requires Holds(db, h, 1) && Readable(h, 1) && LeafBelow(h)
    requires PruneOps(db, 1, 1).Ok? ==> d == Apply(db, PruneOps(db, 1, 1).value)
    ensures ReadVersion(d, 3) == Err(MissingNode)
  {
    LeafWouldMove(h);
    PruneLeavesThird(db, h);
    MovedNodeIsLost(d, h, 2, 3, LEAF_A);
  }

  lemma {:induction false} PruneLosesLeaf(s: State, h: History)
    requires Inv(s, h) && LeafBelow(h)
    ensures !Legal(s, h, DeleteVersionsTo(1))
    ensures ReadVersion(Next(s, DeleteVersionsTo(1)).db, 3) == Err(MissingNode)
  {
    LeafWouldMove(h);
    PrunedStore(s, h, 1, Next(s, DeleteVersionsTo(1)));
    LeafIsLost(s.db, h, Next(s, DeleteVersionsTo(1)).db);
  }

  lemma {:induction false} LeafWouldMove(h: History)
    requires Complete(h) && h.lo == 1 && h.hi == 3 && 3 in h.roots && LEAF_A in RootProperNodes(h.roots[3])
    ensures At(LEAF_A, 2) != KeyOf(LEAF_A) && !PruneIsClean(h, 1, 1)
  {
  }

  lemma {:induction false} PruneLeavesThird(db: Db, h: History)
    requires Holds(db, h, 1) && Readable(h, 1) && h.lo == 1 && h.hi == 3 && h.roots[2] == Some(LEAF_A)
    ensures PruneOps(db, 1, 1).Ok? && Holds(Apply(db, PruneOps(db, 1, 1).value), h, 2)
  {
    forall v | 1 <= v <= 1 ensures !LeafReused(h, v) {
    }
    PruneLeavesLater(db, h, 1, 1);
  }

  /** Overwriting from version 0 leaves a tree at version 1 over a store without any version. */
  lemma {:induction false} OverwritingFromZeroWipes(ops: seq<Op>)
    requires ops == [Set(A, []), SaveVersion, LoadVersionForOverwriting(0)]
    ensures RunOf(0, ops).s.version == 1 && RunOf(0, ops).s.root == Some(LEAF_A)
    ensures forall v :: RootKey(v) !in RunOf(0, ops).s.db
  {
    assert ops[..3] == ops;
    LeafSavedOnce(ops);
    RunSound(0, ops[..2]);
    RunStep(0, ops, 2);
    WipedLeaf(RunOf(0, ops[..2]).s, RunOf(0, ops[..2]).h);
  }

  lemma {:induction false} WipedLeaf(s: State, h: History)
    requires Inv(s, h) && h == History(1, 1, map[1 := Some(LEAF_A)])
    ensures var t := Next(s, LoadVersionForOverwriting(0));
      t.version == 1 && t.root == Some(LEAF_A) && forall v :: RootKey(v) !in t.db
  {
    IllegalOverwrite(s, h, 0);
    LoadKeepsInv(s, h, 0);
  }
}
