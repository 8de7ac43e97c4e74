/**
 * Whole runs of the versioned tree, from an empty store. As long as every step is legal, a run refines a map of
 * maps; and the first step that is not legal is the first after which some version no longer reads back.
 */
module Runs {
  import opened Base
  import opened Trees
  import opened Update
  import opened Store
  import opened Layout
  import opened Saving
  import opened Pruning
  import opened Rewinding
  import opened Machine

  // ----- The simple form: a working map and one map per saved version -----

  datatype Spec = Spec(lo: int, hi: int, saved: map<int, map<Bytes, Bytes>>, work: map<Bytes, Bytes>)

  function SpecStart(initialVersion: nat): Spec {
    var start := if initialVersion > 0 then initialVersion else 1;
    Spec(start, start - 1, map[], map[])
  }

  function SpecLast(sp: Spec): map<Bytes, Bytes> {
    if sp.lo <= sp.hi && sp.hi in sp.saved then sp.saved[sp.hi] else map[]
  }

  function SpecNext(sp: Spec, op: Op): Spec {
    match op
    case Set(key, value) => sp.(work := sp.work[key := value])
    case Remove(key) => sp.(work := sp.work - {key})
    case Rollback => sp.(work := SpecLast(sp))
    case SaveVersion => sp.(hi := sp.hi + 1, saved := sp.saved[sp.hi + 1 := sp.work])
    case DeleteVersionsTo(to) =>
      if sp.lo <= to < sp.hi then sp.(lo := to + 1, saved := map v | v in sp.saved && to < v :: sp.saved[v]) else sp
    case LoadVersionForOverwriting(target) =>
      if sp.lo > sp.hi || target > sp.hi || 0 < target < sp.lo then sp
      else if target <= 0 then sp.(work := SpecLast(sp))
      else
        var kept := map v | v in sp.saved && v <= target :: sp.saved[v];
        sp.(hi := target, saved := kept, work := if target in kept then kept[target] else map[])
    case Reopen => sp.(work := SpecLast(sp))
  }

  /** A state as the simple form sees it: what its store reads back, version by version. */
  ghost predicate Shows(s: State, sp: Spec) {
    && RootModel(s.root) == sp.work
    && (forall v {:trigger RootKey(v)} :: RootKey(v) in s.db <==> v in sp.saved)
    && (forall v {:trigger sp.saved[v]} :: v in sp.saved ==>
          ReadVersion(s.db, v).Ok? && RootModel(ReadVersion(s.db, v).value) == sp.saved[v])
  }

  /** The maps of all versions. */
  ghost function Maps(h: History): map<int, map<Bytes, Bytes>> {
    map v | v in h.roots :: RootModel(h.roots[v])
  }

  ghost function SpecOf(s: State, h: History): Spec {
    Spec(h.lo, h.hi, Maps(h), RootModel(s.root))
  }

  // ----- One step -----

  lemma {:induction false} NextKeepsInv(s: State, h: History, op: Op)
    requires Inv(s, h) && Legal(s, h, op)
    ensures Inv(Next(s, op), NextHistory(h, s, op))
  {
    match op
    case Set(key, value) => SetKeepsInv(s, h, key, value);
    case Remove(key) => RemoveKeepsInv(s, h, key);
    case Rollback => RollbackKeepsInv(s, h);
    case SaveVersion => SaveKeepsInv(s, h);
    case DeleteVersionsTo(to) => PruneKeepsInv(s, h, to);
    case LoadVersionForOverwriting(target) => OverwriteKeepsInv(s, h, target);
    case Reopen => ReopenKeepsInv(s, h);
  }

  lemma {:induction false} LastOf(s: State, h: History)
    requires Inv(s, h)
    ensures SpecLast(SpecOf(s, h)) == RootModel(Last(h))
    ensures h.hi in h.roots <==> h.lo <= h.hi
  {
    assert InSpan(h, h.hi) <==> h.hi in h.roots;
  }

  lemma {:induction false} WorkRefines(s: State, h: History, op: Op)
    requires Inv(s, h) && Legal(s, h, op)
    ensures RootModel(Next(s, op).root) == SpecNext(SpecOf(s, h), op).work
  {
    LastOf(s, h);
    match op
    case Set(key, value) => SetKeepsInv(s, h, key, value);
    case Remove(key) => RemoveKeepsInv(s, h, key);
    case Rollback => RollbackKeepsInv(s, h);
    case SaveVersion => SaveKeepsInv(s, h);
    case DeleteVersionsTo(to) => PruneKeepsInv(s, h, to);
    case LoadVersionForOverwriting(target) => OverwriteKeepsInv(s, h, target);
    case Reopen => ReopenKeepsInv(s, h);
  }

  lemma {:induction false} SaveAddsMap(h: History, root: Option<Node>, h': History)
    requires h' == Extend(h, Canon(SavedRoot(root, h.hi + 1)))
    ensures Maps(h') == Maps(h)[h.hi + 1 := RootModel(root)]
  {
    SavedModel(root, h.hi + 1);
    SavedModel(SavedRoot(root, h.hi + 1), h.hi + 1);
  }

  lemma {:induction false} SavedRefines(s: State, h: History, op: Op)
    requires Inv(s, h)
    ensures
      var sp, h' := SpecNext(SpecOf(s, h), op), NextHistory(h, s, op);
      sp.lo == h'.lo && sp.hi == h'.hi && sp.saved == Maps(h')
  {
    match op
    case SaveVersion => SaveAddsMap(h, s.root, NextHistory(h, s, op));
    case DeleteVersionsTo(to) =>
    case LoadVersionForOverwriting(target) =>
    case _ =>
  }

  /** A legal step does to the state what it does to the simple form. */
  lemma {:induction false} StepRefines(s: State, h: History, op: Op)
    requires Inv(s, h) && Legal(s, h, op)
    ensures SpecOf(Next(s, op), NextHistory(h, s, op)) == SpecNext(SpecOf(s, h), op)
  {
    WorkRefines(s, h, op);
    SavedRefines(s, h, op);
  }

  lemma {:induction false} InvShows(s: State, h: History)
    requires Inv(s, h)
    ensures Shows(s, SpecOf(s, h))
  {
    var sp := SpecOf(s, h);
    forall v {:trigger RootKey(v)} ensures RootKey(v) in s.db <==> v in sp.saved {
      RootKeyPresent(s.db, h, h.lo, v);
      assert InSpan(h, v) <==> v in h.roots;
    }
    forall v {:trigger sp.saved[v]} | v in sp.saved
      ensures ReadVersion(s.db, v).Ok? && RootModel(ReadVersion(s.db, v).value) == sp.saved[v]
    {
      assert InSpan(h, v);
      VersionReadsBack(s.db, h, h.lo, v);
    }
  }

  // ----- Runs -----

  datatype Config = Config(s: State, h: History)

  ghost function RunOf(initialVersion: nat, ops: seq<Op>): Config {
    if ops == [] then
      var start := if initialVersion > 0 then initialVersion else 1;
      Config(Opened(initialVersion, map[]), History(start, start - 1, map[]))
    else
      var c := RunOf(initialVersion, ops[..|ops| - 1]);
      Config(Next(c.s, ops[|ops| - 1]), NextHistory(c.h, c.s, ops[|ops| - 1]))
  }

  function SpecRun(initialVersion: nat, ops: seq<Op>): Spec {
    if ops == [] then SpecStart(initialVersion)
    else SpecNext(SpecRun(initialVersion, ops[..|ops| - 1]), ops[|ops| - 1])
  }

  ghost predicate LegalRun(initialVersion: nat, ops: seq<Op>) {
    ops != [] ==>
      var c := RunOf(initialVersion, ops[..|ops| - 1]);
      LegalRun(initialVersion, ops[..|ops| - 1]) && Complete(c.h) && Legal(c.s, c.h, ops[|ops| - 1])
  }

  lemma {:induction false} StartInv(initialVersion: nat)
    ensures var c := RunOf(initialVersion, []); Inv(c.s, c.h) && SpecOf(c.s, c.h) == SpecStart(initialVersion)
  {
    var c := RunOf(initialVersion, []);
    assert Complete(c.h) && GoodHistory(c.h);
    assert Span(c.h, c.h.lo) == {};
    assert NodeKeys(c.h, c.h.lo) == {};
    assert RootKeys(c.h, c.h.lo) == {};
  }

  lemma {:induction false} RunInv(initialVersion: nat, ops: seq<Op>)
    requires LegalRun(initialVersion, ops)
    ensures var c := RunOf(initialVersion, ops); Inv(c.s, c.h) && SpecOf(c.s, c.h) == SpecRun(initialVersion, ops)
  {
    if ops == [] {
      StartInv(initialVersion);
    } else {
      RunInv(initialVersion, ops[..|ops| - 1]);
      var c := RunOf(initialVersion, ops[..|ops| - 1]);
      NextKeepsInv(c.s, c.h, ops[|ops| - 1]);
      StepRefines(c.s, c.h, ops[|ops| - 1]);
    }
  }

  lemma {:induction false} RunSound(initialVersion: nat, ops: seq<Op>)
    requires LegalRun(initialVersion, ops)
    ensures Inv(RunOf(initialVersion, ops).s, RunOf(initialVersion, ops).h)
  {
    RunInv(initialVersion, ops);
  }

  /**
   * Every legal run from an empty store refines the simple form: the working tree is the working map, the
   * versions in the store are the saved ones, and each reads back as the map it was saved with.
   */
  lemma {:induction false} RunRefines(initialVersion: nat, ops: seq<Op>)
    requires LegalRun(initialVersion, ops)
    ensures Shows(RunOf(initialVersion, ops).s, SpecRun(initialVersion, ops))
  {
    RunInv(initialVersion, ops);
    var c := RunOf(initialVersion, ops);
    InvShows(c.s, c.h);
  }

  // ----- Trees, not just maps -----

  lemma {:induction false} ReadIsHistory(s: State, h: History, v: int)
    requires Inv(s, h) && v in h.roots
    ensures ReadVersion(s.db, v).Ok? && Canon(ReadVersion(s.db, v).value) == h.roots[v]
  {
    assert InSpan(h, v);
    VersionReadsBack(s.db, h, h.lo, v);
    assert GoodVersion(h, v);
  }

  lemma {:induction false} HistoryKept(s: State, h: History, op: Op, v: int)
    requires Inv(s, h) && v in h.roots && v in NextHistory(h, s, op).roots
    ensures NextHistory(h, s, op).roots[v] == h.roots[v]
  {
    assert InSpan(h, v);
  }

  lemma {:induction false} RunStep(initialVersion: nat, ops: seq<Op>, k: int)
    requires 0 <= k < |ops|
    ensures
      var c, d := RunOf(initialVersion, ops[..k]), RunOf(initialVersion, ops[..k + 1]);
      d.s == Next(c.s, ops[k]) && d.h == NextHistory(c.h, c.s, ops[k])
  {
    assert ops[..k + 1][..k] == ops[..k] && ops[..k + 1][k] == ops[k];
  }

  lemma {:induction false} VersionUnchanged(initialVersion: nat, ops: seq<Op>, i: int, v: int)
    requires LegalRun(initialVersion, ops) && 0 <= i <= |ops|
    requires forall k {:trigger ops[..k]} :: i <= k <= |ops| ==> v in RunOf(initialVersion, ops[..k]).h.roots
    ensures v in RunOf(initialVersion, ops).h.roots && v in RunOf(initialVersion, ops[..i]).h.roots
    ensures RunOf(initialVersion, ops).h.roots[v] == RunOf(initialVersion, ops[..i]).h.roots[v]
    decreases |ops|
  {
    if i == |ops| {
      assert ops[..i] == ops;
    } else {
      var front := ops[..|ops| - 1];
      forall k {:trigger front[..k]} | i <= k <= |front| ensures v in RunOf(initialVersion, front[..k]).h.roots {
        assert front[..k] == ops[..k];
      }
      VersionUnchanged(initialVersion, front, i, v);
      assert front[..i] == ops[..i];
      var c := RunOf(initialVersion, front);
      RunInv(initialVersion, front);
      assert ops[..|ops|] == ops;
      HistoryKept(c.s, c.h, ops[|ops| - 1], v);
    }
  }

  lemma {:induction false} SavedAt(c: Config, d: Config, v: int)
    requires d.h == NextHistory(c.h, c.s, SaveVersion) && v == c.h.hi + 1
    ensures v in d.h.roots && d.h.roots[v] == Canon(SavedRoot(c.s.root, v))
  {
  }

  /** The runs before and after a step, as values. */
  lemma {:induction false} RunsAround(initialVersion: nat, ops: seq<Op>, k: int) returns (c: Config, d: Config)
    requires 0 <= k < |ops|
    ensures c == RunOf(initialVersion, ops[..k]) && d == RunOf(initialVersion, ops[..k + 1])
    ensures d.s == Next(c.s, ops[k]) && d.h == NextHistory(c.h, c.s, ops[k])
  {
    c, d := RunOf(initialVersion, ops[..k]), RunOf(initialVersion, ops[..k + 1]);
    RunStep(initialVersion, ops, k);
  }

  lemma {:induction false} RunReads(initialVersion: nat, ops: seq<Op>, v: int)
    requires LegalRun(initialVersion, ops) && v in RunOf(initialVersion, ops).h.roots
    ensures var c := RunOf(initialVersion, ops);
      ReadVersion(c.s.db, v).Ok? && Canon(ReadVersion(c.s.db, v).value) == c.h.roots[v]
  {
    RunInv(initialVersion, ops);
    var c := RunOf(initialVersion, ops);
    ReadIsHistory(c.s, c.h, v);
  }

  /**
   * A version saved at step `i` of a legal run and kept since reads back as exactly the tree that was saved,
   * node keys included; only a root that was moved by pruning sits at nonce 0.
   */
  lemma {:induction false} SavedVersionStays(initialVersion: nat, ops: seq<Op>, i: int, v: int)
    requires LegalRun(initialVersion, ops) && 0 <= i < |ops| && ops[i] == SaveVersion
    requires v == RunOf(initialVersion, ops[..i]).h.hi + 1
    requires forall k {:trigger ops[..k]} :: i < k <= |ops| ==> v in RunOf(initialVersion, ops[..k]).h.roots
    ensures ReadVersion(RunOf(initialVersion, ops).s.db, v).Ok?
    ensures Canon(ReadVersion(RunOf(initialVersion, ops).s.db, v).value) ==
      Canon(SavedRoot(RunOf(initialVersion, ops[..i]).s.root, v))
  {
    var c, d := RunsAround(initialVersion, ops, i);
    SavedAt(c, d, v);
    VersionUnchanged(initialVersion, ops, i + 1, v);
    RunReads(initialVersion, ops, v);
  }

  /** Node keys are unique across all retained versions of a legal run, and versions never grow downwards. */
  lemma {:induction false} NodeKeysNeverClash(initialVersion: nat, ops: seq<Op>, v: int, w: int, x: Node, y: Node)
    requires LegalRun(initialVersion, ops)
    requires var h := RunOf(initialVersion, ops).h;
      v in h.roots && w in h.roots && x in RootNodes(h.roots[v]) && y in RootNodes(h.roots[w])
    ensures x.nk == y.nk ==> x == y
    ensures Saved(x)
    ensures (x.Inner? ==> KeyOf(x.left).version <= KeyOf(x).version && KeyOf(x.right).version <= KeyOf(x).version)
  {
    RunInv(initialVersion, ops);
    var h := RunOf(initialVersion, ops).h;
    assert InSpan(h, v) && InSpan(h, w);
    SpanContains(h, h.lo, v, x);
    SpanContains(h, h.lo, w, y);
    var a := SpanNode(h, h.lo, x);
    if x.nk == y.nk {
      KeysUnique(h, x, y);
    }
  }

  // ----- Legal is exactly what keeps every version readable -----

  /** The store has exactly the versions of the history, and each reads back as the tree that was saved. */
  ghost predicate Faithful(db: Db, h: History) {
    && (forall v {:trigger RootKey(v)} :: RootKey(v) in db <==> v in h.roots)
    && (forall v {:trigger h.roots[v]} :: v in h.roots ==>
          && (h.roots[v].Some? ==> h.roots[v].value.nk.Some?)
          && ReadVersion(db, v) == Ok(AtRoot(h.roots[v], h.lo)))
  }

  lemma {:induction false} HeldIsFaithful(db: Db, h: History)
    requires Holds(db, h, h.lo) && Readable(h, h.lo)
    ensures Faithful(db, h)
  {
    forall v {:trigger RootKey(v)} ensures RootKey(v) in db <==> v in h.roots {
      RootKeyPresent(db, h, h.lo, v);
      assert InSpan(h, v) <==> v in h.roots;
    }
    forall v {:trigger h.roots[v]} | v in h.roots
      ensures h.roots[v].Some? ==> h.roots[v].value.nk.Some?
      ensures ReadVersion(db, v) == Ok(AtRoot(h.roots[v], h.lo))
    {
      assert InSpan(h, v);
      VersionReadsBack(db, h, h.lo, v);
    }
  }

  lemma {:induction false} LostSave(db: Db, h: History, m: Option<Node>, work: Option<Node>, db': Db, h': History)
    requires Holds(db, h, h.lo) && Readable(h, h.lo) && h.lo <= h.hi + 1
    requires Mirrors(m, Last(h), h.lo) && Derived(work, m) && AvlRoot(work) && ReusesMovedLeaf(work, m, h.lo)
    requires h' == Extend(h, Canon(SavedRoot(work, h.hi + 1))) && db' == Apply(db, SaveOps(work, h.hi + 1))
    ensures !Faithful(db', h')
  {
    SaveExtendsStore(db, h, m, work);
    assert h'.roots[h.hi + 1] == Canon(SavedRoot(work, h.hi + 1));
  }

  lemma {:induction false} IllegalSave(s: State, h: History)
    requires Inv(s, h) && !Legal(s, h, SaveVersion)
    ensures !Faithful(Next(s, SaveVersion).db, NextHistory(h, s, SaveVersion))
  {
    SaveStep(s, h);
    UnfaithfulSave(s, h, Next(s, SaveVersion), NextHistory(h, s, SaveVersion));
  }

  lemma {:induction false} SaveStep(s: State, h: History)
    ensures Next(s, SaveVersion) == Finish(s, Save(s))
    ensures NextHistory(h, s, SaveVersion) == Extend(h, Canon(SavedRoot(s.root, h.hi + 1)))
  {
  }

  lemma {:induction false} UnfaithfulSave(s: State, h: History, n: State, h': History)
    requires Inv(s, h) && ReusesMovedLeaf(s.root, s.lastSaved, h.lo)
    requires n == Finish(s, Save(s)) && h' == Extend(h, Canon(SavedRoot(s.root, h.hi + 1)))
    ensures !Faithful(n.db, h')
  {
    StoreAfterSave(s, h, n);
    LostSave(s.db, h, s.lastSaved, s.root, n.db, h');
  }

  lemma {:induction false} FaithfulIsClean(db: Db, h: History, to: int)
    requires GoodHistory(h) && h.lo <= to < h.hi && Faithful(db, Trim(h, to + 1))
    ensures CleanlyPruned(db, h, h.lo, to + 1)
  {
    var t := Trim(h, to + 1);
    forall w | to + 1 <= w <= h.hi
      ensures (h.roots[w].Some? ==> h.roots[w].value.nk.Some?) && ReadVersion(db, w) == Ok(AtRoot(h.roots[w], to + 1))
    {
      assert InSpan(h, w);
      assert t.roots[w] == h.roots[w];
    }
    forall u | h.lo <= u < to + 1 ensures RootKey(u) !in db {
      assert u !in t.roots;
    }
  }

  lemma {:induction false} UncleanPrune(db: Db, h: History, to: int)
    requires Holds(db, h, h.lo) && Readable(h, h.lo) && h.lo <= to < h.hi && !PruneIsClean(h, h.lo, to)
    ensures PruneOps(db, h.lo, to).Ok? && !Faithful(Apply(db, PruneOps(db, h.lo, to).value), Trim(h, to + 1))
  {
    PruneExactly(db, h, h.lo, to);
    var db' := Apply(db, PruneOps(db, h.lo, to).value);
    if Faithful(db', Trim(h, to + 1)) {
      FaithfulIsClean(db', h, to);
    }
  }

  lemma {:induction false} PrunedStore(s: State, h: History, to: int, n: State)
    requires Inv(s, h) && h.lo <= to < h.hi && n == Finish(s, Prune(s, to))
    ensures PruneOps(s.db, h.lo, to).Ok? ==> n.db == Apply(s.db, PruneOps(s.db, h.lo, to).value)
  {
    PruneGives(s, h, to);
  }

  lemma {:induction false} UnfaithfulPrune(s: State, h: History, to: int, db: Db, t: History)
    requires Inv(s, h) && h.lo <= to < h.hi && !PruneIsClean(h, h.lo, to)
    requires PruneOps(s.db, h.lo, to).Ok? ==> db == Apply(s.db, PruneOps(s.db, h.lo, to).value)
    requires t == Trim(h, to + 1)
    ensures !Faithful(db, t)
  {
    UncleanPrune(s.db, h, to);
  }

  lemma {:induction false} IllegalPrune(s: State, h: History, to: int)
    requires Inv(s, h) && !Legal(s, h, DeleteVersionsTo(to))
    ensures !Faithful(Next(s, DeleteVersionsTo(to)).db, NextHistory(h, s, DeleteVersionsTo(to)))
  {
    PruneStep(s, h, to);
    PrunedStore(s, h, to, Next(s, DeleteVersionsTo(to)));
    UnfaithfulPrune(s, h, to, Next(s, DeleteVersionsTo(to)).db, NextHistory(h, s, DeleteVersionsTo(to)));
  }

  lemma {:induction false} PruneStep(s: State, h: History, to: int)
    ensures Next(s, DeleteVersionsTo(to)) == Finish(s, Prune(s, to))
    ensures h.lo <= to < h.hi ==> NextHistory(h, s, DeleteVersionsTo(to)) == Trim(h, to + 1)
  {
  }

  /** Loading version 0 or -1 for overwriting loads the latest version and deletes every version. */
  lemma {:induction false} IllegalOverwrite(s: State, h: History, target: int)
    requires Inv(s, h) && !Legal(s, h, LoadVersionForOverwriting(target))
    ensures Next(s, LoadVersionForOverwriting(target)).version == h.hi
    ensures forall v :: RootKey(v) !in Next(s, LoadVersionForOverwriting(target)).db
    ensures !Faithful(Next(s, LoadVersionForOverwriting(target)).db,
                      NextHistory(h, s, LoadVersionForOverwriting(target)))
  {
    LoadKeepsInv(s, h, target);
    ScanFromStart(s.db, h, target + 1);
    assert InSpan(h, h.hi) && h.hi in h.roots;
  }

  lemma {:induction false} ScanFromStart(db: Db, h: History, from: int)
    requires Holds(db, h, h.lo) && 0 <= from <= 1 <= h.lo
    ensures forall v :: RootKey(v) !in db - Scanned(db, from, h.hi)
  {
    forall v ensures RootKey(v) !in db - Scanned(db, from, h.hi) {
      RootKeyPresent(db, h, h.lo, v);
    }
  }

  lemma {:induction false} LegalIsFaithful(s: State, h: History, op: Op)
    requires Inv(s, h) && Legal(s, h, op)
    ensures Faithful(Next(s, op).db, NextHistory(h, s, op))
  {
    NextKeepsInv(s, h, op);
    HeldIsFaithful(Next(s, op).db, NextHistory(h, s, op));
  }

  lemma {:induction false} IllegalIsNotFaithful(s: State, h: History, op: Op)
    requires Inv(s, h) && !Legal(s, h, op)
    ensures !Faithful(Next(s, op).db, NextHistory(h, s, op))
  {
    match op
    case SaveVersion => IllegalSave(s, h);
    case DeleteVersionsTo(to) => IllegalPrune(s, h, to);
    case LoadVersionForOverwriting(target) => IllegalOverwrite(s, h, target);
  }

  /** From a sound state, a step leaves every version readable as it was saved if and only if it is legal. */
  lemma {:induction false} StepIsExact(s: State, h: History, op: Op)
    requires Inv(s, h)
    ensures Faithful(Next(s, op).db, NextHistory(h, s, op)) <==> Legal(s, h, op)
  {
    if Legal(s, h, op) {
      LegalIsFaithful(s, h, op);
    } else {
      IllegalIsNotFaithful(s, h, op);
    }
  }

  /** After each of its steps every version of the run reads back as it was saved. */
  ghost predicate AlwaysFaithful(initialVersion: nat, ops: seq<Op>) {
    && (ops != [] ==> AlwaysFaithful(initialVersion, ops[..|ops| - 1]))
    && Faithful(RunOf(initialVersion, ops).s.db, RunOf(initialVersion, ops).h)
  }

  /** A run is legal exactly when it is always faithful: the legal runs are all the runs that lose nothing. */
  lemma {:induction false} RunIsExact(initialVersion: nat, ops: seq<Op>)
    ensures LegalRun(initialVersion, ops) <==> AlwaysFaithful(initialVersion, ops)
  {
    if ops == [] {
      StartInv(initialVersion);
      HeldIsFaithful(RunOf(initialVersion, []).s.db, RunOf(initialVersion, []).h);
    } else {
      var front := ops[..|ops| - 1];
      RunIsExact(initialVersion, front);
      if LegalRun(initialVersion, front) {
        RunInv(initialVersion, front);
        StepIsExact(RunOf(initialVersion, front).s, RunOf(initialVersion, front).h, ops[|ops| - 1]);
      }
    }
  }
}
