/**
 * The structural diff of two consecutive versions: walking both in lock step, the leaves that left the older
 * version are merged with the leaves that are new in the newer one into a sorted change set.
 */
module Diff {
  import opened Base
  import opened Trees
  import opened Store
  import opened Merkle
  import opened Orphans

  /** A key-value pair of a change set: a value to set, or a key to delete. */
  datatype Change = Assign(key: Bytes, value: Bytes) | Erase(key: Bytes)

  predicate AllLeaves(s: seq<Node>) {
    forall i :: 0 <= i < |s| ==> s[i].Leaf?
  }

  function AssignOf(leaf: Node): Change
    requires leaf.Leaf?
  {
    Assign(leaf.key, leaf.value)
  }

  function Assigns(leaves: seq<Node>): seq<Change>
    requires AllLeaves(leaves)
  {
    if leaves == [] then [] else [AssignOf(leaves[0])] + Assigns(leaves[1..])
  }

  /** Gone and new leaves, both in key order, merged into changes. */
  function MergeChanges(gone: seq<Node>, added: seq<Node>): seq<Change>
    requires AllLeaves(gone) && AllLeaves(added)
    decreases |gone| + |added|
  {
    if gone == [] then Assigns(added)
    else if added == [] || Less(gone[0].key, added[0].key) then [Erase(gone[0].key)] + MergeChanges(gone[1..], added)
    else if Less(added[0].key, gone[0].key) then [AssignOf(added[0])] + MergeChanges(gone, added[1..])
    else [AssignOf(added[0])] + MergeChanges(gone[1..], added[1..])
  }

  /** The leaves of `t` from left to right, leaving out the subtrees in `kept`. */
  function LeavesOutside(t: Node, kept: set<Node>): (s: seq<Node>)
    ensures AllLeaves(s)
  {
    if t in kept then []
    else if t.Leaf? then [t]
    else LeavesOutside(t.left, kept) + LeavesOutside(t.right, kept)
  }

  function RootLeavesOutside(r: Option<Node>, kept: set<Node>): (s: seq<Node>)
    ensures AllLeaves(s)
  {
    if r.None? then [] else LeavesOutside(r.value, kept)
  }

  function ForestLeaves(s: seq<Node>, kept: set<Node>): (leaves: seq<Node>)
    ensures AllLeaves(leaves)
  {
    if s == [] then [] else LeavesOutside(s[|s| - 1], kept) + ForestLeaves(s[..|s| - 1], kept)
  }

  /** The nodes both versions have. */
  function Shared(p: Option<Node>, c: Option<Node>): set<Node> {
    RootNodes(p) * RootNodes(c)
  }

  /** The changes from `p` to `c`. */
  function Changes(p: Option<Node>, c: Option<Node>): seq<Change> {
    MergeChanges(RootLeavesOutside(p, Shared(p, c)), RootLeavesOutside(c, Shared(p, c)))
  }

  // ----- The walk -----

  lemma {:induction false} PushLeaves(s: seq<Node>, t: Node, kept: set<Node>)
    ensures ForestLeaves(s + [t], kept) == LeavesOutside(t, kept) + ForestLeaves(s, kept)
  {
    assert (s + [t])[..|s|] == s;
  }

  lemma {:induction false} AdvanceLeaves(s: seq<Node>, kept: set<Node>)
    requires s != []
    ensures
      var t := s[|s| - 1];
      ForestLeaves(s, kept) ==
        if t in kept then ForestLeaves(Advance(s, true), kept)
        else (if t.Leaf? then [t] else []) + ForestLeaves(Advance(s, false), kept)
  {
    var t, rest := s[|s| - 1], s[..|s| - 1];
    assert s == rest + [t];
    PushLeaves(rest, t, kept);
    if t !in kept && t.Inner? {
      PushLeaves(rest, t.right, kept);
      PushLeaves(rest + [t.right], t.left, kept);
      assert Advance(s, false) == rest + [t.right] + [t.left];
      Regroup(LeavesOutside(t.left, kept), LeavesOutside(t.right, kept), ForestLeaves(rest, kept));
    }
  }

  lemma {:induction false} LeavesAreNodes(t: Node, kept: set<Node>, x: Node)
    requires x in LeavesOutside(t, kept)
    ensures x in Nodes(t) && x.Leaf?
  {
    if t.Inner? {
      if x in LeavesOutside(t.left, kept) {
        LeavesAreNodes(t.left, kept, x);
      } else {
        LeavesAreNodes(t.right, kept, x);
      }
    }
  }

  lemma {:induction false} ForestLeavesAreNodes(s: seq<Node>, kept: set<Node>, x: Node)
    requires x in ForestLeaves(s, kept)
    ensures x in ForestNodes(s) && x.Leaf?
  {
    if x in LeavesOutside(s[|s| - 1], kept) {
      LeavesAreNodes(s[|s| - 1], kept, x);
    } else {
      ForestLeavesAreNodes(s[..|s| - 1], kept, x);
    }
  }

  /** New leaves that have been collected but not reported lie before the shared node and all that is still to come. */
  ghost predicate Collected(added: seq<Node>, cur: seq<Node>, org: Option<Node>) {
    && AllLeaves(added)
    && (forall i, y {:trigger added[i], y in ForestNodes(cur)} :: 0 <= i < |added| && y in ForestNodes(cur) ==>
          Less(added[i].key, MinKey(y)))
    && (org.Some? ==> forall i :: 0 <= i < |added| ==> Less(added[i].key, MinKey(org.value)))
  }

  /** Everything not reported yet. */
  ghost function Remaining(p: Option<Node>, c: Option<Node>, prev: seq<Node>, cur: seq<Node>,
                           added: seq<Node>): seq<Change>
    requires AllLeaves(added)
  {
    MergeChanges(ForestLeaves(prev, Shared(p, c)), added + ForestLeaves(cur, Shared(p, c)))
  }

  lemma {:induction false} RemainingStart(p: Option<Node>, c: Option<Node>)
    ensures Remaining(p, c, Roots(p), Roots(c), []) == Changes(p, c)
  {
    var kept := Shared(p, c);
    if p.Some? {
      PushLeaves([], p.value, kept);
      assert [] + [p.value] == Roots(p);
      assert LeavesOutside(p.value, kept) + [] == LeavesOutside(p.value, kept);
    }
    if c.Some? {
      PushLeaves([], c.value, kept);
      assert [] + [c.value] == Roots(c);
      assert LeavesOutside(c.value, kept) + [] == LeavesOutside(c.value, kept);
    }
    assert [] + ForestLeaves(Roots(c), kept) == ForestLeaves(Roots(c), kept);
  }

  /** Entering a new node of the newer version, collecting it if it is a leaf. */
  lemma {:induction false} CollectNew(p: Option<Node>, c: Option<Node>, v: int, prev: seq<Node>, cur: seq<Node>,
                                      added: seq<Node>)
    requires Consecutive(p, c, v) && InStep(p, c, v, prev, cur, None) && Collected(added, cur, None)
    requires cur != [] && !IsOld(cur[|cur| - 1], v)
    ensures
      var t := cur[|cur| - 1];
      var more := added + if t.Leaf? then [t] else [];
      && InStep(p, c, v, prev, Advance(cur, false), None) && Collected(more, Advance(cur, false), None)
      && Remaining(p, c, prev, Advance(cur, false), more) == Remaining(p, c, prev, cur, added)
  {
    var t := cur[|cur| - 1];
    var more := added + if t.Leaf? then [t] else [];
    StepOverNew(p, c, v, prev, cur);
    AdvanceForest(cur, false);
    AdvanceLeaves(cur, Shared(p, c));
    assert t in ForestNodes(cur);
    OldIsShared(p, c, v, t);
    Regroup(added, if t.Leaf? then [t] else [], ForestLeaves(Advance(cur, false), Shared(p, c)));
    CollectedGrows(added, cur);
  }

  lemma {:induction false} CollectedGrows(added: seq<Node>, cur: seq<Node>)
    requires Collected(added, cur, None) && SortedForest(cur) && cur != []
    ensures
      var t := cur[|cur| - 1];
      Collected(added + if t.Leaf? then [t] else [], Advance(cur, false), None)
  {
    var t := cur[|cur| - 1];
    var more := added + if t.Leaf? then [t] else [];
    AdvanceForest(cur, false);
    forall i, y {:trigger more[i], y in ForestNodes(Advance(cur, false))} |
      0 <= i < |more| && y in ForestNodes(Advance(cur, false))
      ensures Less(more[i].key, MinKey(y))
    {
      if i < |added| {
        assert Less(added[i].key, MinKey(y));
      } else {
        TopBeforeRest(cur, t, y);
      }
    }
  }

  /** Arriving at a shared node, which is skipped. */
  lemma {:induction false} ArriveShared(p: Option<Node>, c: Option<Node>, v: int, prev: seq<Node>, cur: seq<Node>,
                                        added: seq<Node>)
    requires Consecutive(p, c, v) && InStep(p, c, v, prev, cur, None) && Collected(added, cur, None)
    requires cur != [] && IsOld(cur[|cur| - 1], v)
    ensures
      var t := cur[|cur| - 1];
      && InStep(p, c, v, prev, Advance(cur, true), Some(t)) && Collected(added, Advance(cur, true), Some(t))
      && Remaining(p, c, prev, Advance(cur, true), added) == Remaining(p, c, prev, cur, added)
  {
    var t := cur[|cur| - 1];
    StepToShared(p, c, v, prev, cur);
    AdvanceForest(cur, true);
    AdvanceLeaves(cur, Shared(p, c));
    assert t in ForestNodes(cur);
    OldIsShared(p, c, v, t);
  }

  /** A leaf of the older version that is next and not shared lies before everything new that is still to come. */
  lemma {:induction false} GoneBeforeLater(p: Option<Node>, c: Option<Node>, v: int, prev: seq<Node>, cur: seq<Node>,
                                           org: Option<Node>, y: Node)
    requires Consecutive(p, c, v) && InStep(p, c, v, prev, cur, org) && prev != [] && prev[|prev| - 1].Leaf?
    requires org != Some(prev[|prev| - 1]) && (org.None? ==> cur == []) && y in ForestNodes(cur)
    ensures Less(prev[|prev| - 1].key, MinKey(y))
  {
    var t, s := prev[|prev| - 1], org.value;
    AdvanceForest(prev, true);
    assert s in Cover(org, cur, v) && s in ForestNodes(prev);
    assert s !in Nodes(t) && s in ForestNodes(prev[..|prev| - 1]);
    TopBeforeRest(prev, t, s);
    assert s in RootNodes(c);
    NodesAreAvl(c.value, s);
    KeysWithinBounds(s);
    LessLeq(t.key, MinKey(s), MaxKey(s));
    Transitive(t.key, MaxKey(s), MinKey(y));
  }

  /** Leaves collected before the shared node are all reported before anything behind it. */
  lemma {:induction false} MergeFlushes(gone: seq<Node>, added: seq<Node>, later: seq<Node>)
    requires AllLeaves(gone) && AllLeaves(added) && AllLeaves(later)
    requires forall i, j :: 0 <= i < |added| && 0 <= j < |gone| ==> Less(added[i].key, gone[j].key)
    ensures MergeChanges(gone, added + later) == Assigns(added) + MergeChanges(gone, later)
  {
    if added == [] {
      assert added + later == later;
    } else {
      assert (added + later)[1..] == added[1..] + later;
      MergeAssign(gone, added + later);
      MergeFlushes(gone, added[1..], later);
      Regroup([AssignOf(added[0])], Assigns(added[1..]), MergeChanges(gone, later));
    }
  }

  lemma {:induction false} MergeAssign(gone: seq<Node>, added: seq<Node>)
    requires AllLeaves(gone) && AllLeaves(added) && added != []
    requires gone == [] || Less(added[0].key, gone[0].key)
    ensures MergeChanges(gone, added) == [AssignOf(added[0])] + MergeChanges(gone, added[1..])
  {
    if gone != [] {
      Trichotomy(added[0].key, gone[0].key);
    }
  }

  /** A leaf collected before the shared node sorts before every gone leaf behind it. */
  lemma {:induction false} CollectedBeforeGone(prev: seq<Node>, org: Node, a: Node, o: Node, kept: set<Node>)
    requires prev != [] && prev[|prev| - 1] == org && SortedForest(prev)
    requires a.Leaf? && Less(a.key, MinKey(org)) && o in ForestLeaves(Advance(prev, true), kept)
    ensures Less(a.key, o.key)
  {
    assert Advance(prev, true) == prev[..|prev| - 1];
    ForestLeavesAreNodes(prev[..|prev| - 1], kept, o);
    assert org in Nodes(org);
    TopBeforeRest(prev, org, o);
    Transitive(a.key, MinKey(org), o.key);
  }

  lemma {:induction false} SharedMatch(p: Option<Node>, c: Option<Node>, v: int, prev: seq<Node>, cur: seq<Node>,
                                       org: Node)
    requires InStep(p, c, v, prev, cur, Some(org)) && prev != [] && prev[|prev| - 1] == org
    ensures org in Shared(p, c) && SortedForest(prev)
  {
    StepOverMatch(p, c, v, prev, cur, org);
    AdvanceForest(prev, true);
    assert org in ForestNodes(prev);
  }

  lemma {:induction false} LeavesAtMatch(prev: seq<Node>, kept: set<Node>)
    requires prev != [] && prev[|prev| - 1] in kept
    ensures ForestLeaves(prev, kept) == ForestLeaves(Advance(prev, true), kept)
  {
    AdvanceLeaves(prev, kept);
  }

  /** What is left to report, as a merge of leaves. */
  lemma {:induction false} RemainingIs(p: Option<Node>, c: Option<Node>, prev: seq<Node>, cur: seq<Node>,
                                       added: seq<Node>,
                                      gone: seq<Node>, all: seq<Node>)
    requires AllLeaves(added) && gone == ForestLeaves(prev, Shared(p, c))
    requires all == added + ForestLeaves(cur, Shared(p, c))
    ensures Remaining(p, c, prev, cur, added) == MergeChanges(gone, all)
  {
  }

  lemma {:induction false} FlushAtMatch(p: Option<Node>, c: Option<Node>, v: int, prev: seq<Node>, cur: seq<Node>,
                                        org: Node,
                                       added: seq<Node>)
    requires InStep(p, c, v, prev, cur, Some(org)) && Collected(added, cur, Some(org))
    requires prev != [] && prev[|prev| - 1] == org
    ensures InStep(p, c, v, Advance(prev, true), cur, None)
    ensures Remaining(p, c, prev, cur, added) == Assigns(added) + Remaining(p, c, Advance(prev, true), cur, [])
  {
    StepOverMatch(p, c, v, prev, cur, org);
    SharedMatch(p, c, v, prev, cur, org);
    var gone, later := ForestLeaves(Advance(prev, true), Shared(p, c)), ForestLeaves(cur, Shared(p, c));
    forall i, j | 0 <= i < |added| && 0 <= j < |gone| ensures Less(added[i].key, gone[j].key) {
      CollectedBeforeGone(prev, org, added[i], gone[j], Shared(p, c));
    }
    MergeFlushes(gone, added, later);
    LeavesAtMatch(prev, Shared(p, c));
    RemainingIs(p, c, prev, cur, added, gone, added + later);
    assert [] + later == later;
    RemainingIs(p, c, Advance(prev, true), cur, [], gone, later);
  }

  // ----- The extraction -----

  lemma {:induction false} AppendAssign(done: seq<Node>, leaf: Node)
    requires AllLeaves(done) && leaf.Leaf?
    ensures Assigns(done + [leaf]) == Assigns(done) + [AssignOf(leaf)]
  {
    if done == [] {
      assert done + [leaf] == [leaf];
    } else {
      assert (done + [leaf])[1..] == done[1..] + [leaf];
      AppendAssign(done[1..], leaf);
    }
  }

  /** The two walks are in step, the collected leaves in place, and nothing has been lost since `start`. */
  ghost predicate Tracks(p: Option<Node>, c: Option<Node>, v: int, prev: seq<Node>, cur: seq<Node>, org: Option<Node>,
                         added: seq<Node>, start: seq<Node>) {
    && InStep(p, c, v, prev, cur, org) && Collected(added, cur, org)
    && Remaining(p, c, prev, cur, added) == Remaining(p, c, prev, start, [])
  }

  /** The walks are in step and no shared node is at hand. */
  ghost predicate Starts(p: Option<Node>, c: Option<Node>, v: int, prev: seq<Node>, cur: seq<Node>) {
    Consecutive(p, c, v) && InStep(p, c, v, prev, cur, None)
  }

  lemma {:induction false} TracksStep(p: Option<Node>, c: Option<Node>, v: int, prev: seq<Node>, cur: seq<Node>,
                                      added: seq<Node>, start: seq<Node>)
    requires Consecutive(p, c, v) && Tracks(p, c, v, prev, cur, None, added, start) && cur != []
    requires cur[|cur| - 1].nk.Some?
    ensures
      var t := cur[|cur| - 1];
      var shared := KeyOf(t).version <= v;
      Tracks(p, c, v, prev, Advance(cur, shared), if shared then Some(t) else None,
             if shared || t.Inner? then added else added + [t], start)
  {
    assert added + [] == added;
    if IsOld(cur[|cur| - 1], v) {
      ArriveShared(p, c, v, prev, cur, added);
    } else {
      CollectNew(p, c, v, prev, cur, added);
    }
  }

  /** A gone leaf comes before the new leaves that were not collected yet. */
  predicate Ahead(o: Node, later: seq<Node>) {
    later == [] || Less(o.key, later[0].key)
  }

  /** What is left to report once a gone leaf has been dealt with; `later` are the new leaves not collected yet. */
  lemma {:induction false} GoneStep(o: Node, gone: seq<Node>, added: seq<Node>, later: seq<Node>)
    requires o.Leaf? && AllLeaves(gone) && AllLeaves(added) && AllLeaves(later)
    requires Ahead(o, later)
    ensures
      var all := MergeChanges([o] + gone, added + later);
      all == if added == [] || Less(o.key, added[0].key) then [Erase(o.key)] + MergeChanges(gone, added + later)
             else if o.key == added[0].key then [AssignOf(added[0])] + MergeChanges(gone, added[1..] + later)
             else [AssignOf(added[0])] + MergeChanges([o] + gone, added[1..] + later)
  {
    assert ([o] + gone)[1..] == gone;
    if added == [] {
      assert added + later == later;
    } else {
      assert (added + later)[1..] == added[1..] + later;
      Trichotomy(o.key, added[0].key);
    }
  }

  lemma {:induction false} GoneTurn(pairs: seq<Change>, o: Node, gone: seq<Node>, added: seq<Node>, later: seq<Node>)
    requires o.Leaf? && AllLeaves(gone) && AllLeaves(added) && AllLeaves(later)
    requires Ahead(o, later)
    ensures
      pairs + MergeChanges([o] + gone, added + later) ==
        if added == [] || Less(o.key, added[0].key) then (pairs + [Erase(o.key)]) + MergeChanges(gone, added + later)
        else if o.key == added[0].key then (pairs + [AssignOf(added[0])]) + MergeChanges(gone, added[1..] + later)
        else (pairs + [AssignOf(added[0])]) + MergeChanges([o] + gone, added[1..] + later)
  {
    GoneStep(o, gone, added, later);
    if added == [] || Less(o.key, added[0].key) {
      Regroup(pairs, [Erase(o.key)], MergeChanges(gone, added + later));
    } else if o.key == added[0].key {
      Regroup(pairs, [AssignOf(added[0])], MergeChanges(gone, added[1..] + later));
    } else {
      Regroup(pairs, [AssignOf(added[0])], MergeChanges([o] + gone, added[1..] + later));
    }
  }

  predicate Suffix(a: seq<Node>, b: seq<Node>) {
    |a| <= |b| && a == b[|b| - |a|..]
  }

  lemma {:induction false} TailIsSuffix(a: seq<Node>, b: seq<Node>)
    requires a != [] && Suffix(a, b)
    ensures Suffix(a[1..], b)
  {
  }

  /** The state the closures of `extractStateChanges` share. */
  class StateChanges {
    const sha: Digest
    const prevVersion: int
    const prevIter: NodeIterator
    const curIter: NodeIterator
    var sharedNode: Option<Node>
    var newLeaves: seq<Node>
    var pairs: seq<Change>

    constructor (sha: Digest, prevVersion: int, prevIter: NodeIterator, curIter: NodeIterator)
      ensures this.sha == sha && this.prevVersion == prevVersion && this.prevIter == prevIter && this.curIter == curIter
      ensures sharedNode == None && newLeaves == [] && pairs == []
    {
      this.sha, this.prevVersion := sha, prevVersion;
      this.prevIter, this.curIter := prevIter, curIter;
      sharedNode, newLeaves, pairs := None, [], [];
    }

    ghost predicate Sound()
      reads this, prevIter, curIter
    {
      && prevIter != curIter && !prevIter.failed && !curIter.failed
      && AllLoaded(prevIter.db, prevIter.nodesToVisit) && AllLoaded(curIter.db, curIter.nodesToVisit)
      && AllLeaves(newLeaves)
    }

    /** The two walks are in step and the collected leaves in place. */
    ghost predicate OnTrack(p: Option<Node>, c: Option<Node>)
      reads this, prevIter, curIter
    {
      && InStep(p, c, prevVersion, prevIter.nodesToVisit, curIter.nodesToVisit, sharedNode)
      && Collected(newLeaves, curIter.nodesToVisit, sharedNode)
    }

    /** `consumeNewLeaves`: report everything collected. */
    method ConsumeNewLeaves()
      requires AllLeaves(newLeaves)
      modifies this`newLeaves, this`pairs
      ensures newLeaves == [] && pairs == old(pairs) + Assigns(old(newLeaves))
    {
      ghost var start := pairs;
      var i := 0;
      while i < |newLeaves|
        invariant 0 <= i <= |newLeaves| && newLeaves == old(newLeaves)
        invariant pairs == start + Assigns(newLeaves[..i])
      {
        AppendAssign(newLeaves[..i], newLeaves[i]);
        assert newLeaves[..i + 1] == newLeaves[..i] + [newLeaves[i]];
        pairs := pairs + [AssignOf(newLeaves[i])];
        i := i + 1;
      }
      assert newLeaves[..i] == newLeaves;
      newLeaves := [];
    }

    /** One node of the newer version: shared, and skipped, or new, and collected if it is a leaf. */
    method CollectOne(ghost p: Option<Node>, ghost c: Option<Node>, ghost start: seq<Node>)
      requires Sound() && curIter.Valid() && sharedNode.None?
      modifies this`sharedNode, this`newLeaves, curIter
      ensures Sound() && ForestSize(curIter.nodesToVisit) < old(ForestSize(curIter.nodesToVisit))
      ensures
        (Consecutive(p, c, prevVersion)
         && old(Tracks(p, c, prevVersion, prevIter.nodesToVisit, curIter.nodesToVisit, None, newLeaves, start)))
        ==> Tracks(p, c, prevVersion, prevIter.nodesToVisit, curIter.nodesToVisit, sharedNode, newLeaves, start)
    {
      ghost var prev, cur := prevIter.nodesToVisit, curIter.nodesToVisit;
      var node := curIter.nodesToVisit[|curIter.nodesToVisit| - 1];
      assert Loaded(curIter.db, node);
      var shared := KeyOf(node).version <= prevVersion;
      AdvanceForest(cur, shared);
      if Consecutive(p, c, prevVersion) && Tracks(p, c, prevVersion, prev, cur, None, newLeaves, start) {
        TracksStep(p, c, prevVersion, prev, cur, newLeaves, start);
      }
      curIter.Next(shared);
      if shared {
        sharedNode := Some(node);
      } else if node.Leaf? {
        newLeaves := newLeaves + [node];
      }
    }

    /** `advanceSharedNode`: on to the next shared node of the newer version, collecting new leaves. */
    method AdvanceSharedNode(ghost p: Option<Node>, ghost c: Option<Node>)
      requires Sound()
      modifies this, curIter
      ensures Sound() && pairs == old(pairs) + Assigns(old(newLeaves))
      ensures sharedNode.None? ==> curIter.nodesToVisit == []
      ensures Starts(p, c, prevVersion, prevIter.nodesToVisit, old(curIter.nodesToVisit)) ==>
        && OnTrack(p, c)
        && Remaining(p, c, prevIter.nodesToVisit, curIter.nodesToVisit, newLeaves) ==
             Remaining(p, c, prevIter.nodesToVisit, old(curIter.nodesToVisit), [])
    {
      ConsumeNewLeaves();
      sharedNode := None;
      ghost var start := curIter.nodesToVisit;
      ghost var good := Starts(p, c, prevVersion, prevIter.nodesToVisit, start);
      while sharedNode.None? && curIter.Valid()
        invariant Sound() && pairs == old(pairs) + Assigns(old(newLeaves))
        invariant prevIter.nodesToVisit == old(prevIter.nodesToVisit)
        invariant good ==>
          Tracks(p, c, prevVersion, prevIter.nodesToVisit, curIter.nodesToVisit, sharedNode, newLeaves, start)
        decreases ForestSize(curIter.nodesToVisit)
      {
        CollectOne(p, c, start);
      }
    }

    /** One comparison of `addOrphanedLeave`: an insertion goes on, an update or a deletion ends the loop. */
    method CompareOne(orphaned: Node, ghost gone: seq<Node>, ghost later: seq<Node>) returns (stop: bool)
      requires orphaned.Leaf? && newLeaves != [] && AllLeaves(newLeaves) && AllLeaves(gone) && AllLeaves(later)
      modifies this`newLeaves, this`pairs
      ensures AllLeaves(newLeaves)
      ensures newLeaves == old(newLeaves)[1..] || (stop && newLeaves == old(newLeaves))
      ensures Ahead(orphaned, later) ==>
        pairs + MergeChanges(if stop then gone else [orphaned] + gone, newLeaves + later) ==
          old(pairs) + MergeChanges([orphaned] + gone, old(newLeaves) + later)
    {
      if Ahead(orphaned, later) {
        GoneTurn(pairs, orphaned, gone, newLeaves, later);
      }
      var newLeave := newLeaves[0];
      Trichotomy(orphaned.key, newLeave.key);
      if Less(newLeave.key, orphaned.key) {
        newLeaves := newLeaves[1..];
        pairs := pairs + [AssignOf(newLeave)];
        stop := false;
      } else if Less(orphaned.key, newLeave.key) {
        pairs := pairs + [Erase(orphaned.key)];
        stop := true;
      } else {
        newLeaves := newLeaves[1..];
        pairs := pairs + [AssignOf(newLeave)];
        stop := true;
      }
    }

    /** `addOrphanedLeave`: report the collected leaves before it, then its update or deletion. */
    method AddOrphanedLeave(orphaned: Node, ghost gone: seq<Node>, ghost later: seq<Node>)
      requires orphaned.Leaf? && AllLeaves(newLeaves) && AllLeaves(gone) && AllLeaves(later)
      modifies this`newLeaves, this`pairs
      ensures AllLeaves(newLeaves) && Suffix(newLeaves, old(newLeaves))
      ensures Ahead(orphaned, later) ==>
        pairs + MergeChanges(gone, newLeaves + later) ==
          old(pairs) + MergeChanges([orphaned] + gone, old(newLeaves) + later)
    {
      ghost var all := pairs + MergeChanges([orphaned] + gone, newLeaves + later);
      while |newLeaves| > 0
        invariant AllLeaves(newLeaves) && Suffix(newLeaves, old(newLeaves))
        invariant Ahead(orphaned, later) ==> pairs + MergeChanges([orphaned] + gone, newLeaves + later) == all
        decreases |newLeaves|
      {
        TailIsSuffix(newLeaves, old(newLeaves));
        var stop := CompareOne(orphaned, gone, later);
        if stop {
          return;
        }
      }
      if Ahead(orphaned, later) {
        GoneTurn(pairs, orphaned, gone, newLeaves, later);
      }
      pairs := pairs + [Erase(orphaned.key)];
    }

    /** A leaf that is gone from the older version. */
    method TurnLeaf(node: Node, ghost p: Option<Node>, ghost c: Option<Node>, ghost prev: seq<Node>)
      requires Sound() && node.Leaf?
      modifies this`newLeaves, this`pairs
      ensures Sound()
      ensures
        var kept := Shared(p, c);
        var later := ForestLeaves(curIter.nodesToVisit, kept);
        && Collected(old(newLeaves), curIter.nodesToVisit, sharedNode)
        && ForestLeaves(prev, kept) == [node] + ForestLeaves(prevIter.nodesToVisit, kept)
        && Ahead(node, later) ==>
          && Collected(newLeaves, curIter.nodesToVisit, sharedNode)
          && pairs + Remaining(p, c, prevIter.nodesToVisit, curIter.nodesToVisit, newLeaves) ==
               old(pairs + Remaining(p, c, prev, curIter.nodesToVisit, newLeaves))
    {
      ghost var kept, before := Shared(p, c), newLeaves;
      AddOrphanedLeave(node, ForestLeaves(prevIter.nodesToVisit, kept), ForestLeaves(curIter.nodesToVisit, kept));
      if Collected(before, curIter.nodesToVisit, sharedNode) {
        StillCollected(before, newLeaves, curIter.nodesToVisit, sharedNode);
      }
    }

    /** One turn of the main loop: skip a shared subtree, or deal with a node that is gone. */
    method Turn(ghost p: Option<Node>, ghost c: Option<Node>)
      requires Sound() && prevIter.Valid() && (sharedNode.None? ==> curIter.nodesToVisit == [])
      modifies this, prevIter, curIter
      ensures Sound() && (sharedNode.None? ==> curIter.nodesToVisit == [])
      ensures ForestSize(prevIter.nodesToVisit) < old(ForestSize(prevIter.nodesToVisit))
      ensures Walkable(sha, p, c, prevVersion) && old(OnTrack(p, c)) ==>
        && OnTrack(p, c)
        && pairs + Remaining(p, c, prevIter.nodesToVisit, curIter.nodesToVisit, newLeaves) ==
             old(pairs + Remaining(p, c, prevIter.nodesToVisit, curIter.nodesToVisit, newLeaves))
    {
      ghost var good := Walkable(sha, p, c, prevVersion) && OnTrack(p, c);
      ghost var prev := prevIter.nodesToVisit;
      ghost var cur := curIter.nodesToVisit;
      var node := prevIter.nodesToVisit[|prevIter.nodesToVisit| - 1];
      var shared := Hit(sha, node, sharedNode);
      AdvanceForest(prev, shared);
      if good {
        WalkStep(sha, p, c, prevVersion, prev, cur, sharedNode, newLeaves);
      }
      prevIter.Next(shared);
      if shared {
        if good {
          Regroup(pairs, Assigns(newLeaves), Remaining(p, c, prevIter.nodesToVisit, cur, []));
        }
        AdvanceSharedNode(p, c);
      } else if node.Leaf? {
        TurnLeaf(node, p, c, prev);
      } else if good {
        assert [] + ForestLeaves(prevIter.nodesToVisit, Shared(p, c)) ==
          ForestLeaves(prevIter.nodesToVisit, Shared(p, c));
      }
    }

    /** The main loop: the older version's leaves up to each shared node, and on. */
    method Walk(ghost p: Option<Node>, ghost c: Option<Node>)
      requires Sound() && prevIter.nodesToVisit == Roots(p) && curIter.nodesToVisit == Roots(c)
      requires newLeaves == [] && pairs == []
      modifies this, prevIter, curIter
      ensures Walkable(sha, p, c, prevVersion) ==> pairs == Changes(p, c)
    {
      ghost var good, all := Walkable(sha, p, c, prevVersion), Changes(p, c);
      if good {
        StepsStart(p, c, prevVersion);
        RemainingStart(p, c);
      }
      AdvanceSharedNode(p, c);
      while prevIter.Valid()
        invariant Sound() && (sharedNode.None? ==> curIter.nodesToVisit == [])
        invariant good ==> OnTrack(p, c)
        invariant good ==> pairs + Remaining(p, c, prevIter.nodesToVisit, curIter.nodesToVisit, newLeaves) == all
        decreases ForestSize(prevIter.nodesToVisit)
      {
        Turn(p, c);
      }
      if good {
        WalkEnds(p, c, prevVersion, curIter.nodesToVisit, sharedNode, newLeaves);
      }
      ConsumeNewLeaves();
    }
  }

  lemma {:induction false} StillCollected(added: seq<Node>, rest: seq<Node>, cur: seq<Node>, org: Option<Node>)
    requires Collected(added, cur, org) && |rest| <= |added| && rest == added[|added| - |rest|..]
    ensures Collected(rest, cur, org)
  {
    forall i | 0 <= i < |rest| ensures rest[i] == added[|added| - |rest| + i] {
    }
  }

  /** One turn of the main loop. */
  lemma {:induction false} WalkStep(sha: Digest, p: Option<Node>, c: Option<Node>, v: int, prev: seq<Node>,
                                    cur: seq<Node>, org: Option<Node>, added: seq<Node>)
    requires Walkable(sha, p, c, v) && InStep(p, c, v, prev, cur, org) && Collected(added, cur, org)
    requires prev != [] && (org.None? ==> cur == [])
    ensures
      var t, kept := prev[|prev| - 1], Shared(p, c);
      var hit := Hit(sha, t, org);
      && InStep(p, c, v, Advance(prev, hit), cur, if hit then None else org)
      && (hit ==> Remaining(p, c, prev, cur, added) == Assigns(added) + Remaining(p, c, Advance(prev, true), cur, []))
      && (!hit ==> ForestLeaves(prev, kept) == (if t.Leaf? then [t] else []) + ForestLeaves(Advance(prev, false), kept))
      && (!hit && t.Leaf? ==> ForestLeaves(cur, kept) == [] || Less(t.key, ForestLeaves(cur, kept)[0].key))
  {
    var t, kept := prev[|prev| - 1], Shared(p, c);
    if org.Some? {
      SameHash(sha, p, c, v, prev, cur, org.value);
    }
    if Hit(sha, t, org) {
      FlushAtMatch(p, c, v, prev, cur, org.value, added);
    } else {
      StepOverOrphan(p, c, v, prev, cur, org);
      AdvanceLeaves(prev, kept);
      if t.Leaf? && ForestLeaves(cur, kept) != [] {
        ForestLeavesAreNodes(cur, kept, ForestLeaves(cur, kept)[0]);
        GoneBeforeLater(p, c, v, prev, cur, org, ForestLeaves(cur, kept)[0]);
      }
    }
  }

  lemma {:induction false} WalkEnds(p: Option<Node>, c: Option<Node>, v: int, cur: seq<Node>, org: Option<Node>,
                                    added: seq<Node>)
    requires InStep(p, c, v, [], cur, org) && (org.None? ==> cur == []) && AllLeaves(added)
    ensures Remaining(p, c, [], cur, added) == Assigns(added)
  {
    if org.Some? {
      SharedIsCovered(org.value, cur, v);
    }
    assert added + [] == added;
  }

  lemma {:induction false} SharedIsCovered(org: Node, cur: seq<Node>, v: int)
    ensures org in Cover(Some(org), cur, v)
  {
  }
}
