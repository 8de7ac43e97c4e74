/**
 * Walking two versions in lock step. Versions share subtrees, and a shared subtree is recognised in the
 * newer version by its old version number; comparing hashes finds it again in the older version.
 */
module Orphans {
  import opened Base
  import opened Trees
  import opened Store
  import opened Merkle

  // ----- The node iterator -----

  predicate Loaded(db: Db, t: Node) {
    t.nk.Some? && ReadTree(db, KeyOf(t)) == Some(t)
  }

  predicate AllLoaded(db: Db, s: seq<Node>) {
    forall i :: 0 <= i < |s| ==> Loaded(db, s[i])
  }

  lemma {:induction false} ChildrenLoaded(db: Db, t: Node)
    requires Loaded(db, t) && t.Inner?
    ensures Loaded(db, t.left) && Loaded(db, t.right)
  {
    ReadKeysPresent(db, KeyOf(t), t.left);
    ReadKeysPresent(db, KeyOf(t), t.right);
  }

  /** The nodes still to visit after the top one: its subtree is entered unless it is skipped. */
  function Advance(s: seq<Node>, skip: bool): seq<Node>
    requires s != []
  {
    var t, rest := s[|s| - 1], s[..|s| - 1];
    if skip || t.Leaf? then rest else rest + [t.right, t.left]
  }

  class NodeIterator {
    const db: Db
    var nodesToVisit: seq<Node>
    var failed: bool

    constructor (db: Db, nodes: seq<Node>)
      ensures this.db == db && nodesToVisit == nodes && !failed
    {
      this.db := db;
      nodesToVisit := nodes;
      failed := false;
    }

    predicate Valid()
      reads this
    {
      !failed && nodesToVisit != []
    }

    /** `NodeIterator.Next`; a child that cannot be loaded ends the iteration. */
    method Next(skip: bool)
      modifies this
      ensures old(!Valid()) ==> nodesToVisit == old(nodesToVisit) && failed == old(failed)
      ensures old(Valid()) && AllLoaded(db, old(nodesToVisit)) ==>
        !failed && nodesToVisit == Advance(old(nodesToVisit), skip) && AllLoaded(db, nodesToVisit)
    {
      if !Valid() {
        return;
      }
      var node := nodesToVisit[|nodesToVisit| - 1];
      nodesToVisit := nodesToVisit[..|nodesToVisit| - 1];
      if skip || node.Leaf? {
        return;
      }
      if Loaded(db, node) {
        ChildrenLoaded(db, node);
      }
      var right := if node.right.nk.Some? then ReadTree(db, KeyOf(node.right)) else None;
      if right.None? {
        failed := true;
        return;
      }
      nodesToVisit := nodesToVisit + [right.value];
      var left := if node.left.nk.Some? then ReadTree(db, KeyOf(node.left)) else None;
      if left.None? {
        failed := true;
        return;
      }
      nodesToVisit := nodesToVisit + [left.value];
    }
  }

  /** `NewNodeIterator`: no root means nothing to visit. */
  method NewNodeIterator(db: Db, root: Option<NodeKey>) returns (iter: Result<NodeIterator, DbError>)
    ensures root.None? ==> iter.Ok?
    ensures root.Some? ==> (iter.Ok? <==> ReadTree(db, root.value).Some?)
    ensures iter.Ok? ==>
      && fresh(iter.value) && iter.value.db == db && !iter.value.failed
      && iter.value.nodesToVisit == (if root.None? then [] else [ReadTree(db, root.value).value])
  {
    if root.None? {
      var it := new NodeIterator(db, []);
      return Ok(it);
    }
    var node := ReadTree(db, root.value);
    if node.None? {
      return Err(MissingNode);
    }
    var it := new NodeIterator(db, [node.value]);
    return Ok(it);
  }

  // ----- Forests: what a stack of nodes still covers -----

  function ForestNodes(s: seq<Node>): set<Node> {
    if s == [] then {} else ForestNodes(s[..|s| - 1]) + Nodes(s[|s| - 1])
  }

  predicate SortedForest(s: seq<Node>) {
    && (forall i :: 0 <= i < |s| ==> Ordered(s[i]))
    && (forall i, j :: 0 <= i < j < |s| ==> Less(MaxKey(s[j]), MinKey(s[i])))
  }

  function ForestSize(s: seq<Node>): nat {
    if s == [] then 0 else ForestSize(s[..|s| - 1]) + NodeCount(s[|s| - 1])
  }

  lemma {:induction false} PushForest(s: seq<Node>, t: Node)
    ensures ForestNodes(s + [t]) == ForestNodes(s) + Nodes(t)
    ensures ForestSize(s + [t]) == ForestSize(s) + NodeCount(t)
  {
    assert (s + [t])[..|s|] == s;
  }

  lemma {:induction false} AdvanceForest(s: seq<Node>, skip: bool)
    requires s != []
    ensures
      var t, rest := s[|s| - 1], s[..|s| - 1];
      && ForestNodes(s) == ForestNodes(rest) + Nodes(t)
      && ForestNodes(Advance(s, skip)) == ForestNodes(rest) + (if skip then {} else ProperNodes(t))
      && ForestSize(Advance(s, skip)) < ForestSize(s)
  {
    var t, rest := s[|s| - 1], s[..|s| - 1];
    assert s == rest + [t];
    PushForest(rest, t);
    if !skip && t.Inner? {
      PushForest(rest, t.right);
      PushForest(rest + [t.right], t.left);
      assert rest + [t.right] + [t.left] == Advance(s, skip);
    }
  }

  lemma {:induction false} BoundsOfNodes(t: Node, x: Node)
    requires Ordered(t) && x in Nodes(t)
    ensures Ordered(x) && Leq(MinKey(t), MinKey(x)) && Leq(MinKey(x), MaxKey(x)) && Leq(MaxKey(x), MaxKey(t))
  {
    NodesAreAvl(t, x);
    KeysWithinBounds(t);
    KeysWithinBounds(x);
    LeavesOfNodes(t, x);
  }

  lemma {:induction false} LessLeq(a: Bytes, b: Bytes, c: Bytes)
    requires (Less(a, b) && Leq(b, c)) || (Leq(a, b) && Less(b, c))
    ensures Less(a, c)
  {
    if a != b && b != c {
      Transitive(a, b, c);
    }
  }

  lemma {:induction false} AdvanceSorted(s: seq<Node>, skip: bool)
    requires s != [] && SortedForest(s)
    ensures SortedForest(Advance(s, skip))
  {
    var t, rest := s[|s| - 1], s[..|s| - 1];
    if !skip && t.Inner? {
      assert Ordered(t);
      BoundsOfNodes(t, t.left);
      BoundsOfNodes(t, t.right);
      forall i | 0 <= i < |rest|
        ensures Less(MaxKey(t.right), MinKey(rest[i])) && Less(MaxKey(t.left), MinKey(rest[i]))
      {
        assert Less(MaxKey(s[|s| - 1]), MinKey(s[i]));
        LessLeq(MaxKey(t.left), MaxKey(t), MinKey(rest[i]));
      }
    }
  }

  /** A node of the top tree sorts before every node further down the stack. */
  lemma {:induction false} TopBeforeRest(s: seq<Node>, x: Node, y: Node)
    requires s != [] && SortedForest(s) && x in Nodes(s[|s| - 1]) && y in ForestNodes(s[..|s| - 1])
    ensures Less(MaxKey(x), MinKey(y)) && Less(MinKey(x), MinKey(y))
  {
    var t, rest := s[|s| - 1], s[..|s| - 1];
    var i := InForest(rest, y);
    assert Ordered(s[i]) && Ordered(t) && Less(MaxKey(s[|s| - 1]), MinKey(s[i]));
    BoundsOfNodes(t, x);
    BoundsOfNodes(s[i], y);
    LessLeq(MaxKey(x), MaxKey(t), MinKey(s[i]));
    LessLeq(MaxKey(x), MinKey(s[i]), MinKey(y));
    LessLeq(MinKey(x), MaxKey(x), MinKey(y));
  }

  lemma {:induction false} InForest(s: seq<Node>, x: Node) returns (i: int)
    requires x in ForestNodes(s)
    ensures 0 <= i < |s| && x in Nodes(s[i])
  {
    if x in Nodes(s[|s| - 1]) {
      i := |s| - 1;
    } else {
      i := InForest(s[..|s| - 1], x);
    }
  }

  // ----- Nodes are recognised by their hash -----

  /** A subtree is determined by its least key and its size. */
  lemma {:induction false} PlaceIsUnique(t: Node, x: Node, y: Node)
    requires Ordered(t) && Measured(t) && x in Nodes(t) && y in Nodes(t)
    requires MinKey(x) == MinKey(y) && Size(x) == Size(y)
    ensures x == y
  {
    if t.Inner? {
      SmallerInside(t, x);
      SmallerInside(t, y);
      if x in Nodes(t.left) && y in Nodes(t.left) {
        PlaceIsUnique(t.left, x, y);
      } else if x in Nodes(t.right) && y in Nodes(t.right) {
        PlaceIsUnique(t.right, x, y);
      } else if x != t && y != t {
        Separated(t);
        if x in Nodes(t.left) {
          MinKeysInside(t.left, x);
          MinKeysInside(t.right, y);
        } else {
          MinKeysInside(t.right, x);
          MinKeysInside(t.left, y);
        }
      }
    }
  }

  lemma {:induction false} MinKeysInside(t: Node, x: Node)
    requires Ordered(t) && x in Nodes(t)
    ensures MinKey(x) in LeafMap(t)
  {
    NodesAreAvl(t, x);
    KeysWithinBounds(x);
    LeavesOfNodes(t, x);
  }

  lemma {:induction false} SmallerInside(t: Node, x: Node)
    requires Measured(t) && x in Nodes(t)
    ensures Measured(x) && 1 <= Size(x) <= Size(t) && (x != t ==> Size(x) < Size(t))
  {
    MeasuredBounds(t);
    if x != t {
      MeasuredBounds(t.left);
      MeasuredBounds(t.right);
      if x in Nodes(t.left) {
        SmallerInside(t.left, x);
      } else {
        SmallerInside(t.right, x);
      }
    }
  }

  lemma {:induction false} HashedInside(sha: Digest, t: Node, x: Node, working: int)
    requires x in Nodes(t)
    ensures Hashed(sha, x, working) <= Hashed(sha, t, working)
  {
    if x != t {
      if x in Nodes(t.left) {
        HashedInside(sha, t.left, x, working);
      } else {
        HashedInside(sha, t.right, x, working);
      }
    }
  }

  /** Within one tree, and barring collisions, equal hashes mean the same node. */
  lemma {:induction false} HashIdentifies(sha: Digest, t: Node, x: Node, y: Node)
    requires Digest32(sha) && Avl(t) && CollisionFree(sha, Hashed(sha, t, 0), Hashed(sha, t, 0))
    requires x in Nodes(t) && y in Nodes(t)
    ensures Hash(sha, x, 0) == Hash(sha, y, 0) <==> x == y
  {
    if Hash(sha, x, 0) == Hash(sha, y, 0) {
      HashedInside(sha, t, x, 0);
      HashedInside(sha, t, y, 0);
      NodesAreAvl(t, x);
      NodesAreAvl(t, y);
      HashBinds(sha, x, y, 0, 0);
      ContentKeepsMinKey(x, 0);
      ContentKeepsMinKey(y, 0);
      assert Size(Content(x, 0)) == Size(x) && Size(Content(y, 0)) == Size(y);
      PlaceIsUnique(t, x, y);
    }
  }

  // ----- What is orphaned -----

  /** In pre-order, the nodes of `t` that are not kept; the subtree of a kept node is skipped. */
  function Orphaned(t: Node, kept: set<Node>): seq<Node> {
    if t in kept then []
    else if t.Leaf? then [t]
    else [t] + (Orphaned(t.left, kept) + Orphaned(t.right, kept))
  }

  function OrphanedRoot(r: Option<Node>, kept: set<Node>): seq<Node> {
    if r.None? then [] else Orphaned(r.value, kept)
  }

  function OrphanedForest(s: seq<Node>, kept: set<Node>): seq<Node> {
    if s == [] then [] else Orphaned(s[|s| - 1], kept) + OrphanedForest(s[..|s| - 1], kept)
  }

  lemma {:induction false} PushOrphaned(s: seq<Node>, t: Node, kept: set<Node>)
    ensures OrphanedForest(s + [t], kept) == Orphaned(t, kept) + OrphanedForest(s, kept)
  {
    assert (s + [t])[..|s|] == s;
  }

  lemma {:induction false} ExpandOrphaned(rest: seq<Node>, t: Node, kept: set<Node>)
    requires t !in kept && t.Inner?
    ensures OrphanedForest(rest + [t], kept) == [t] + OrphanedForest(rest + [t.right] + [t.left], kept)
  {
    var l, r := Orphaned(t.left, kept), Orphaned(t.right, kept);
    PushOrphaned(rest, t, kept);
    PushOrphaned(rest, t.right, kept);
    PushOrphaned(rest + [t.right], t.left, kept);
    Regroup(l, r, OrphanedForest(rest, kept));
    Regroup([t], l + r, OrphanedForest(rest, kept));
  }

  lemma {:induction false} AdvanceOrphaned(s: seq<Node>, kept: set<Node>)
    requires s != []
    ensures
      var t := s[|s| - 1];
      OrphanedForest(s, kept) == if t in kept then OrphanedForest(Advance(s, true), kept)
                                 else [t] + OrphanedForest(Advance(s, false), kept)
  {
    var t, rest := s[|s| - 1], s[..|s| - 1];
    assert s == rest + [t];
    PushOrphaned(rest, t, kept);
    if t !in kept && t.Inner? {
      ExpandOrphaned(rest, t, kept);
      assert Advance(s, false) == rest + [t.right] + [t.left];
    }
  }

  predicate Disowned(s: set<Node>) {
    forall x {:trigger x.left} {:trigger x.right} :: x in s && x.Inner? ==> x.left in s && x.right in s
  }

  /** The orphans are exactly the nodes that are not kept, provided what is kept is kept whole. */
  lemma {:induction false} OrphanedExactly(t: Node, kept: set<Node>, x: Node)
    requires Disowned(kept)
    ensures x in Orphaned(t, kept) <==> x in Nodes(t) && x !in kept
  {
    if t in kept {
      WholeKept(t, kept);
    } else if t.Inner? {
      OrphanedExactly(t.left, kept, x);
      OrphanedExactly(t.right, kept, x);
    }
  }

  lemma {:induction false} WholeKept(t: Node, kept: set<Node>)
    requires Disowned(kept) && t in kept
    ensures Nodes(t) <= kept
  {
    if t.Inner? {
      WholeKept(t.left, kept);
      WholeKept(t.right, kept);
    }
  }

  lemma {:induction false} NodesDisowned(t: Node)
    ensures Disowned(Nodes(t))
  {
    if t.Inner? {
      NodesDisowned(t.left);
      NodesDisowned(t.right);
    }
  }

  predicate NoRepeats(s: seq<Node>) {
    forall i, j :: 0 <= i < j < |s| ==> s[i] != s[j]
  }

  lemma {:induction false} NoRepeatsAppend(a: seq<Node>, b: seq<Node>)
    requires NoRepeats(a) && NoRepeats(b) && forall x :: x in a ==> x !in b
    ensures NoRepeats(a + b)
  {
    var s := a + b;
    forall i, j | 0 <= i < j < |s| ensures s[i] != s[j] {
      if i < |a| <= j {
        assert s[i] in a && s[j] in b;
      }
    }
  }

  /** No node is reported twice. */
  lemma {:induction false} OrphanedOnce(t: Node, kept: set<Node>)
    requires Ordered(t) && Measured(t)
    ensures NoRepeats(Orphaned(t, kept))
    ensures forall x :: x in Orphaned(t, kept) ==> x in Nodes(t)
  {
    if t !in kept && t.Inner? {
      OrphanedOnce(t.left, kept);
      OrphanedOnce(t.right, kept);
      var l, r := Orphaned(t.left, kept), Orphaned(t.right, kept);
      forall x | x in l ensures x != t && x !in r {
        MeasuredBounds(t.right);
        SmallerInside(t.left, x);
        MinKeysInside(t.left, x);
        Separated(t);
        if x in r {
          MinKeysInside(t.right, x);
        }
      }
      forall x | x in r ensures x != t {
        MeasuredBounds(t.left);
        SmallerInside(t.right, x);
      }
      NoRepeatsAppend(l, r);
      NoRepeatsAppend([t], l + r);
    }
  }

  // ----- The lock-step walk -----

  predicate IsOld(x: Node, v: int) {
    x.nk.Some? && KeyOf(x).version <= v
  }

  /** Versions do not grow from parent to child. */
  predicate Falling(t: Node) {
    t.nk.Some? && (t.Inner? ==>
      && Falling(t.left) && Falling(t.right)
      && KeyOf(t.left).version <= KeyOf(t).version && KeyOf(t.right).version <= KeyOf(t).version)
  }

  lemma {:induction false} OldAllTheWayDown(t: Node, x: Node, v: int)
    requires Falling(t) && x in Nodes(t)
    ensures Falling(x)
    ensures IsOld(t, v) ==> IsOld(x, v)
  {
    if x != t {
      if x in Nodes(t.left) {
        OldAllTheWayDown(t.left, x, v);
      } else {
        OldAllTheWayDown(t.right, x, v);
      }
    }
  }

  /** Two roots of consecutive versions as the walk needs them: copy on write from `p` at version `v` to `c`. */
  ghost predicate Consecutive(p: Option<Node>, c: Option<Node>, v: int) {
    && (p.Some? ==> Avl(p.value) && Falling(p.value) && IsOld(p.value, v))
    && (c.Some? ==> Avl(c.value) && Falling(c.value))
    && CopyOnWrite(p, c, v)
  }

  /** The nodes of the newer version that the rest of the walk can still meet in the older one. */
  ghost function Cover(org: Option<Node>, cur: seq<Node>, v: int): set<Node> {
    RootNodes(org) + set x | x in ForestNodes(cur) && IsOld(x, v)
  }

  ghost predicate InStep(p: Option<Node>, c: Option<Node>, v: int, prev: seq<Node>, cur: seq<Node>, org: Option<Node>) {
    && SortedForest(prev) && SortedForest(cur)
    && ForestNodes(prev) <= RootNodes(p) && ForestNodes(cur) <= RootNodes(c)
    && Cover(org, cur, v) == RootNodes(c) * ForestNodes(prev)
    && (org.Some? ==> forall y :: y in ForestNodes(cur) ==> Less(MaxKey(org.value), MinKey(y)))
  }

  function Roots(r: Option<Node>): seq<Node> {
    if r.None? then [] else [r.value]
  }

  lemma {:induction false} ForestOfRoot(r: Option<Node>)
    ensures ForestNodes(Roots(r)) == RootNodes(r)
  {
    if r.Some? {
      PushForest([], r.value);
      assert [] + [r.value] == Roots(r);
    }
  }

  /** The newer version shares with the older one exactly its old nodes. */
  lemma {:induction false} OldIsShared(p: Option<Node>, c: Option<Node>, v: int, x: Node)
    requires Consecutive(p, c, v) && x in RootNodes(c)
    ensures IsOld(x, v) <==> x in RootNodes(p)
  {
    if x in RootNodes(p) {
      OldAllTheWayDown(p.value, x, v);
    }
  }

  lemma {:induction false} CoverStart(p: Option<Node>, c: Option<Node>, v: int)
    requires Consecutive(p, c, v)
    ensures Cover(None, Roots(c), v) == RootNodes(c) * RootNodes(p)
  {
    ForestOfRoot(c);
    forall x ensures x in Cover(None, Roots(c), v) <==> x in RootNodes(c) * RootNodes(p) {
      if x in RootNodes(c) {
        OldIsShared(p, c, v, x);
      }
    }
  }

  lemma {:induction false} OrphanedStart(p: Option<Node>, kept: set<Node>)
    ensures OrphanedForest(Roots(p), kept) == OrphanedRoot(p, kept)
  {
    if p.Some? {
      PushOrphaned([], p.value, kept);
      assert [] + [p.value] == Roots(p);
    }
  }

  lemma {:induction false} StepsStart(p: Option<Node>, c: Option<Node>, v: int)
    requires Consecutive(p, c, v)
    ensures InStep(p, c, v, Roots(p), Roots(c), None)
    ensures OrphanedForest(Roots(p), RootNodes(c)) == OrphanedRoot(p, RootNodes(c))
  {
    ForestOfRoot(p);
    ForestOfRoot(c);
    CoverStart(p, c, v);
    OrphanedStart(p, RootNodes(c));
  }

  lemma {:induction false} StepOverNew(p: Option<Node>, c: Option<Node>, v: int, prev: seq<Node>, cur: seq<Node>)
    requires InStep(p, c, v, prev, cur, None) && cur != [] && !IsOld(cur[|cur| - 1], v)
    ensures InStep(p, c, v, prev, Advance(cur, false), None)
  {
    AdvanceForest(cur, false);
    AdvanceSorted(cur, false);
    assert Cover(None, Advance(cur, false), v) == Cover(None, cur, v);
  }

  lemma {:induction false} StepToShared(p: Option<Node>, c: Option<Node>, v: int, prev: seq<Node>, cur: seq<Node>)
    requires Consecutive(p, c, v) && InStep(p, c, v, prev, cur, None) && cur != [] && IsOld(cur[|cur| - 1], v)
    ensures InStep(p, c, v, prev, Advance(cur, true), Some(cur[|cur| - 1]))
  {
    var t := cur[|cur| - 1];
    AdvanceForest(cur, true);
    AdvanceSorted(cur, true);
    assert t in Nodes(t);
    OldAllTheWayDown(c.value, t, v);
    forall x | x in Nodes(t) ensures IsOld(x, v) {
      OldAllTheWayDown(t, x, v);
    }
    assert Cover(Some(t), Advance(cur, true), v) == Cover(None, cur, v);
    forall y | y in ForestNodes(Advance(cur, true)) ensures Less(MaxKey(t), MinKey(y)) {
      TopBeforeRest(cur, t, y);
    }
  }

  lemma {:induction false} StepOverMatch(p: Option<Node>, c: Option<Node>, v: int, prev: seq<Node>, cur: seq<Node>,
                                         org: Node)
    requires InStep(p, c, v, prev, cur, Some(org)) && prev != [] && prev[|prev| - 1] == org
    ensures org in RootNodes(c)
    ensures InStep(p, c, v, Advance(prev, true), cur, None)
  {
    AdvanceForest(prev, true);
    AdvanceSorted(prev, true);
    assert org in Cover(Some(org), cur, v);
    forall x ensures x in Cover(None, cur, v) <==> x in RootNodes(c) * ForestNodes(Advance(prev, true)) {
      assert x in Cover(Some(org), cur, v) <==> x in RootNodes(c) * ForestNodes(prev);
      if x in Nodes(org) {
        BoundsOfNodes(org, x);
        if x in ForestNodes(prev[..|prev| - 1]) {
          TopBeforeRest(prev, x, x);
          Trichotomy(MinKey(x), MinKey(x));
        }
        if x in ForestNodes(cur) {
          LessLeq(MaxKey(org), MinKey(x), MaxKey(x));
          LessLeq(MaxKey(org), MaxKey(x), MaxKey(org));
          Trichotomy(MaxKey(org), MaxKey(org));
        }
      }
    }
  }

  /** When the heads differ, the older head is not in the newer version at all. */
  lemma {:induction false} HeadsDiffer(p: Option<Node>, c: Option<Node>, v: int, prev: seq<Node>, cur: seq<Node>,
                                       org: Option<Node>)
    requires Consecutive(p, c, v) && InStep(p, c, v, prev, cur, org) && prev != []
    requires org != Some(prev[|prev| - 1]) && (org.None? ==> cur == [])
    ensures prev[|prev| - 1] !in RootNodes(c)
  {
    var t := prev[|prev| - 1];
    AdvanceForest(prev, true);
    assert t in Nodes(t);
    if t in RootNodes(c) {
      assert t in Cover(org, cur, v);
      if org.Some? {
        var o := org.value;
        assert o in Nodes(o) && o in Cover(org, cur, v);
        assert o in ForestNodes(prev) && o in RootNodes(p);
        NodesAreAvl(p.value, o);
        NodesAreAvl(p.value, t);
        KeysWithinBounds(o);
        if o in Nodes(t) {
          BoundsOfNodes(t, o);
          SmallerInside(t, o);
        } else {
          TopBeforeRest(prev, t, o);
        }
        if t in Nodes(o) {
          BoundsOfNodes(o, t);
          SmallerInside(o, t);
          if o !in Nodes(t) {
            LessLeq(MinKey(t), MinKey(o), MinKey(t));
            Trichotomy(MinKey(t), MinKey(t));
          }
        } else {
          OldInForest(org, cur, v, t);
          LessLeq(MinKey(o), MaxKey(o), MinKey(t));
          if o in Nodes(t) {
            LessLeq(MinKey(o), MinKey(t), MinKey(o));
          } else {
            Transitive(MinKey(o), MinKey(t), MinKey(o));
          }
          Trichotomy(MinKey(o), MinKey(o));
        }
      }
    }
  }

  lemma {:induction false} OldInForest(org: Option<Node>, cur: seq<Node>, v: int, x: Node)
    requires x in Cover(org, cur, v) && x !in RootNodes(org)
    ensures x in ForestNodes(cur)
  {
  }

  lemma {:induction false} StepOverOrphan(p: Option<Node>, c: Option<Node>, v: int, prev: seq<Node>, cur: seq<Node>,
                                          org: Option<Node>)
    requires Consecutive(p, c, v) && InStep(p, c, v, prev, cur, org) && prev != []
    requires org != Some(prev[|prev| - 1]) && (org.None? ==> cur == [])
    ensures prev[|prev| - 1] !in RootNodes(c)
    ensures InStep(p, c, v, Advance(prev, false), cur, org)
  {
    HeadsDiffer(p, c, v, prev, cur, org);
    AdvanceForest(prev, false);
    AdvanceSorted(prev, false);
    assert RootNodes(c) * ForestNodes(prev) == RootNodes(c) * ForestNodes(Advance(prev, false));
  }

  /** The versions can be walked: copy on write holds and no two strings hashed in the older one collide. */
  ghost predicate Walkable(sha: Digest, p: Option<Node>, c: Option<Node>, v: int) {
    && Digest32(sha) && Consecutive(p, c, v)
    && CollisionFree(sha, RootHashed(sha, p, 0), RootHashed(sha, p, 0))
  }

  lemma {:induction false} SameHash(sha: Digest, p: Option<Node>, c: Option<Node>, v: int, prev: seq<Node>,
                                    cur: seq<Node>, org: Node)
    requires Walkable(sha, p, c, v) && InStep(p, c, v, prev, cur, Some(org)) && prev != []
    ensures Hash(sha, prev[|prev| - 1], 0) == Hash(sha, org, 0) <==> org == prev[|prev| - 1]
  {
    AdvanceForest(prev, true);
    assert prev[|prev| - 1] in ForestNodes(prev);
    assert org in Cover(Some(org), cur, v);
    HashIdentifies(sha, p.value, prev[|prev| - 1], org);
  }

  predicate Hit(sha: Digest, t: Node, org: Option<Node>) {
    org.Some? && Hash(sha, t, 0) == Hash(sha, org.value, 0)
  }

  /** One turn of the walk: on a hit the shared subtree is skipped, otherwise the head is an orphan. */
  lemma {:induction false} HeadStep(sha: Digest, p: Option<Node>, c: Option<Node>, v: int, prev: seq<Node>,
                                    cur: seq<Node>, org: Option<Node>)
    requires Walkable(sha, p, c, v) && InStep(p, c, v, prev, cur, org) && prev != [] && (org.None? ==> cur == [])
    ensures
      var t := prev[|prev| - 1];
      var hit := Hit(sha, t, org);
      && InStep(p, c, v, Advance(prev, hit), cur, if hit then None else org)
      && OrphanedForest(prev, RootNodes(c)) ==
           (if hit then [] else [t]) + OrphanedForest(Advance(prev, hit), RootNodes(c))
  {
    AdvanceOrphaned(prev, RootNodes(c));
    if org.Some? {
      SameHash(sha, p, c, v, prev, cur, org.value);
    }
    if Hit(sha, prev[|prev| - 1], org) {
      StepOverMatch(p, c, v, prev, cur, org.value);
    } else {
      StepOverOrphan(p, c, v, prev, cur, org);
    }
  }

  /** The inner loop of the walk: enter new nodes of the newer version up to the next shared one. */
  method NextShared(curIter: NodeIterator, v: int, ghost p: Option<Node>, ghost c: Option<Node>, ghost prev: seq<Node>)
    returns (orgNode: Option<Node>)
    requires !curIter.failed && AllLoaded(curIter.db, curIter.nodesToVisit)
    modifies curIter
    ensures !curIter.failed && AllLoaded(curIter.db, curIter.nodesToVisit)
    ensures orgNode.None? ==> curIter.nodesToVisit == []
    ensures Consecutive(p, c, v) && InStep(p, c, v, prev, old(curIter.nodesToVisit), None) ==>
      InStep(p, c, v, prev, curIter.nodesToVisit, orgNode)
  {
    orgNode := None;
    ghost var good := Consecutive(p, c, v) && InStep(p, c, v, prev, curIter.nodesToVisit, None);
    while orgNode.None? && curIter.Valid()
      invariant !curIter.failed && AllLoaded(curIter.db, curIter.nodesToVisit)
      invariant good ==> InStep(p, c, v, prev, curIter.nodesToVisit, orgNode)
      decreases ForestSize(curIter.nodesToVisit)
    {
      var node := curIter.nodesToVisit[|curIter.nodesToVisit| - 1];
      AdvanceForest(curIter.nodesToVisit, IsOld(node, v));
      assert Loaded(curIter.db, node);
      if KeyOf(node).version <= v {
        if good {
          StepToShared(p, c, v, prev, curIter.nodesToVisit);
        }
        curIter.Next(true);
        orgNode := Some(node);
      } else {
        if good {
          StepOverNew(p, c, v, prev, curIter.nodesToVisit);
        }
        curIter.Next(false);
      }
    }
  }

  /** What is still to be reported, together with what has been. */
  ghost predicate Reports(sha: Digest, p: Option<Node>, c: Option<Node>, v: int, prev: seq<Node>, cur: seq<Node>,
                          org: Option<Node>, orphans: seq<Node>) {
    && InStep(p, c, v, prev, cur, org)
    && orphans + OrphanedForest(prev, RootNodes(c)) == OrphanedRoot(p, RootNodes(c))
  }

  lemma {:induction false} ReportsStep(sha: Digest, p: Option<Node>, c: Option<Node>, v: int, prev: seq<Node>,
                                       cur: seq<Node>, org: Option<Node>, orphans: seq<Node>)
    requires Walkable(sha, p, c, v) && Reports(sha, p, c, v, prev, cur, org, orphans) && prev != []
    requires (org.None? ==> cur == [])
    ensures
      var t := prev[|prev| - 1];
      var hit := Hit(sha, t, org);
      Reports(sha, p, c, v, Advance(prev, hit), cur, if hit then None else org, orphans + if hit then [] else [t])
  {
    var t := prev[|prev| - 1];
    var hit := Hit(sha, t, org);
    HeadStep(sha, p, c, v, prev, cur, org);
    Regroup(orphans, if hit then [] else [t], OrphanedForest(Advance(prev, hit), RootNodes(c)));
  }

  /** One turn of the outer loop: a shared subtree is skipped when its hash comes up, any other node is an orphan. */
  method OrphanTurn(prevIter: NodeIterator, curIter: NodeIterator, sha: Digest, orgNode: Option<Node>,
                    ghost v: int, ghost p: Option<Node>, ghost c: Option<Node>, ghost orphans: seq<Node>)
    returns (found: seq<Node>, nextOrg: Option<Node>)
    requires prevIter != curIter && prevIter.Valid() && AllLoaded(prevIter.db, prevIter.nodesToVisit)
    modifies prevIter
    ensures !prevIter.failed && AllLoaded(prevIter.db, prevIter.nodesToVisit)
    ensures ForestSize(prevIter.nodesToVisit) < old(ForestSize(prevIter.nodesToVisit))
    ensures forall i :: 0 <= i < |found| ==> found[i].nk.Some?
    ensures
      (Walkable(sha, p, c, v)
        && old(Reports(sha, p, c, v, prevIter.nodesToVisit, curIter.nodesToVisit, orgNode, orphans))
       && (orgNode.None? ==> curIter.nodesToVisit == []))
      ==> Reports(sha, p, c, v, prevIter.nodesToVisit, curIter.nodesToVisit, nextOrg, orphans + found)
  {
    var pNode := prevIter.nodesToVisit[|prevIter.nodesToVisit| - 1];
    assert Loaded(prevIter.db, pNode);
    var hit := Hit(sha, pNode, orgNode);
    ghost var prev, cur := prevIter.nodesToVisit, curIter.nodesToVisit;
    AdvanceForest(prev, hit);
    if Walkable(sha, p, c, v) && Reports(sha, p, c, v, prev, cur, orgNode, orphans) && (orgNode.None? ==> cur == []) {
      ReportsStep(sha, p, c, v, prev, cur, orgNode, orphans);
    }
    prevIter.Next(hit);
    found := if hit then [] else [pNode];
    nextOrg := if hit then None else orgNode;
  }

  /** The outer loop over the older version. */
  method WalkOrphans(prevIter: NodeIterator, curIter: NodeIterator, sha: Digest, v: int, ghost p: Option<Node>,
                     ghost c: Option<Node>)
    returns (orphans: seq<Node>)
    requires prevIter != curIter && !prevIter.failed && !curIter.failed
    requires AllLoaded(prevIter.db, prevIter.nodesToVisit) && AllLoaded(curIter.db, curIter.nodesToVisit)
    requires prevIter.nodesToVisit == Roots(p) && curIter.nodesToVisit == Roots(c)
    modifies prevIter, curIter
    ensures forall i :: 0 <= i < |orphans| ==> orphans[i].nk.Some?
    ensures Walkable(sha, p, c, v) ==> orphans == OrphanedRoot(p, RootNodes(c))
  {
    ghost var good := Walkable(sha, p, c, v);
    if good {
      StepsStart(p, c, v);
    }
    var orgNode: Option<Node> := None;
    orphans := [];
    while prevIter.Valid()
      invariant !prevIter.failed && !curIter.failed
      invariant AllLoaded(prevIter.db, prevIter.nodesToVisit) && AllLoaded(curIter.db, curIter.nodesToVisit)
      invariant forall i :: 0 <= i < |orphans| ==> orphans[i].nk.Some?
      invariant good ==> Reports(sha, p, c, v, prevIter.nodesToVisit, curIter.nodesToVisit, orgNode, orphans)
      decreases ForestSize(prevIter.nodesToVisit)
    {
      if orgNode.None? {
        orgNode := NextShared(curIter, v, p, c, prevIter.nodesToVisit);
      }
      var found, nextOrg := OrphanTurn(prevIter, curIter, sha, orgNode, v, p, c, orphans);
      orphans := orphans + found;
      orgNode := nextOrg;
    }
  }

  /**
   * `traverseOrphans`: on consecutive versions it reports exactly the nodes of the older version that are
   * not in the newer one, in pre-order. It needs both roots; on a store that lacks a node below them nothing is
   * promised.
   */
  method TraverseOrphans(db: Db, sha: Digest, prevVersion: int, curVersion: int)
    returns (r: Result<seq<Node>, DbError>)
    ensures GetRoot(db, curVersion).Err? || GetRoot(db, prevVersion).Err? ==> r.Err?
    ensures r.Ok? ==> forall i :: 0 <= i < |r.value| ==> r.value[i].nk.Some?
    ensures ReadVersion(db, curVersion).Ok? && ReadVersion(db, prevVersion).Ok? ==>
      var p, c := ReadVersion(db, prevVersion).value, ReadVersion(db, curVersion).value;
      r.Ok? && (Walkable(sha, p, c, prevVersion) ==> r.value == OrphanedRoot(p, RootNodes(c)))
  {
    var curKey := GetRoot(db, curVersion);
    if curKey.Err? {
      return Err(curKey.error);
    }
    var curStart := NewNodeIterator(db, curKey.value);
    if curStart.Err? {
      return Err(curStart.error);
    }
    var prevKey := GetRoot(db, prevVersion);
    if prevKey.Err? {
      return Err(prevKey.error);
    }
    var prevStart := NewNodeIterator(db, prevKey.value);
    if prevStart.Err? {
      return Err(prevStart.error);
    }
    ghost var p, c := ReadVersion(db, prevVersion).value, ReadVersion(db, curVersion).value;
    var orphans := WalkOrphans(prevStart.value, curStart.value, sha, prevVersion, p, c);
    return Ok(orphans);
  }
}
