/**
 * What a change set means: the extracted changes are strictly ascending, say exactly which keys were set or
 * deleted, and turn the older map into the newer one.
 */
module ChangeSets {
  import opened Base
  import opened Trees
  import opened Update
  import opened Store
  import opened Merkle
  import opened Orphans
  import opened Diff

  predicate SortedChanges(cs: seq<Change>) {
    forall i, j :: 0 <= i < j < |cs| ==> Less(cs[i].key, cs[j].key)
  }

  function ApplyChange(m: map<Bytes, Bytes>, ch: Change): map<Bytes, Bytes> {
    if ch.Assign? then m[ch.key := ch.value] else m - {ch.key}
  }

  function ApplyChanges(m: map<Bytes, Bytes>, cs: seq<Change>): map<Bytes, Bytes> {
    if cs == [] then m else ApplyChange(ApplyChanges(m, cs[..|cs| - 1]), cs[|cs| - 1])
  }

  // ----- Merging sorted leaves -----

  predicate HasLeaf(s: seq<Node>, key: Bytes) {
    exists i :: 0 <= i < |s| && s[i].key == key
  }

  /** What belongs into the merge of gone and new leaves. */
  predicate Belongs(ch: Change, gone: seq<Node>, added: seq<Node>)
    requires AllLeaves(added)
  {
    if ch.Assign? then exists i :: 0 <= i < |added| && added[i].key == ch.key && added[i].value == ch.value
    else HasLeaf(gone, ch.key) && !HasLeaf(added, ch.key)
  }

  lemma {:induction false} HeadIsLeast(s: seq<Node>, key: Bytes)
    requires SortedLeaves(s) && s != [] && Leq(key, s[0].key)
    ensures SortedLeaves(s[1..]) && !HasLeaf(s[1..], key)
    ensures key != s[0].key ==> !HasLeaf(s, key)
    ensures forall i :: 1 <= i < |s| ==> Less(key, s[i].key)
  {
    forall i | 1 <= i < |s| ensures Less(key, s[i].key) && s[i].key != key {
      LessLeq(key, s[0].key, s[i].key);
      Trichotomy(key, s[i].key);
    }
  }

  lemma {:induction false} UnconsLeaf(s: seq<Node>, key: Bytes)
    requires s != []
    ensures HasLeaf(s, key) <==> s[0].key == key || HasLeaf(s[1..], key)
  {
    if s[0].key == key {
      assert HasLeaf(s, key);
    }
    if HasLeaf(s[1..], key) {
      var i :| 0 <= i < |s[1..]| && s[1..][i].key == key;
      assert s[i + 1].key == key;
    }
    if HasLeaf(s, key) && s[0].key != key {
      var i :| 0 <= i < |s| && s[i].key == key;
      assert s[1..][i - 1].key == key;
    }
  }

  lemma {:induction false} UnconsAdded(added: seq<Node>, ch: Change)
    requires AllLeaves(added) && added != [] && ch.Assign?
    ensures Belongs(ch, [], added) <==> ch == AssignOf(added[0]) || Belongs(ch, [], added[1..])
  {
    if Belongs(ch, [], added[1..]) {
      var i :| 0 <= i < |added[1..]| && added[1..][i].key == ch.key && added[1..][i].value == ch.value;
      assert added[i + 1].key == ch.key;
    }
    if Belongs(ch, [], added) && ch != AssignOf(added[0]) {
      var i :| 0 <= i < |added| && added[i].key == ch.key && added[i].value == ch.value;
      assert added[1..][i - 1].key == ch.key;
    }
    if ch == AssignOf(added[0]) {
      assert added[0].key == ch.key;
    }
  }

  lemma {:induction false} UnconsChange(cs: seq<Change>, ch: Change)
    requires cs != []
    ensures ch in cs <==> ch == cs[0] || ch in cs[1..]
  {
    assert cs == [cs[0]] + cs[1..];
  }

  lemma {:induction false} AssignsExactly(added: seq<Node>, ch: Change)
    requires AllLeaves(added)
    ensures ch in Assigns(added) <==> ch.Assign? && Belongs(ch, [], added)
  {
    if added != [] {
      AssignsExactly(added[1..], ch);
      if ch.Assign? {
        UnconsAdded(added, ch);
      }
    }
  }

  /** The merge contains what belongs into it and nothing else. */
  lemma {:induction false} MergeExactly(gone: seq<Node>, added: seq<Node>, ch: Change)
    requires SortedLeaves(gone) && SortedLeaves(added)
    ensures ch in MergeChanges(gone, added) <==> Belongs(ch, gone, added)
    decreases |gone| + |added|
  {
    if gone == [] {
      AssignsExactly(added, ch);
    } else if added == [] || Less(gone[0].key, added[0].key) {
      HeadIsLeast(gone, gone[0].key);
      UnconsLeaf(gone, ch.key);
      if added != [] {
        HeadIsLeast(added, gone[0].key);
        Trichotomy(gone[0].key, added[0].key);
      }
      MergeExactly(gone[1..], added, ch);
    } else {
      Trichotomy(gone[0].key, added[0].key);
      HeadIsLeast(added, added[0].key);
      UnconsLeaf(added, ch.key);
      if ch.Assign? {
        UnconsAdded(added, ch);
      }
      if Less(added[0].key, gone[0].key) {
        HeadIsLeast(gone, added[0].key);
        MergeExactly(gone, added[1..], ch);
      } else {
        HeadIsLeast(gone, gone[0].key);
        UnconsLeaf(gone, ch.key);
        MergeExactly(gone[1..], added[1..], ch);
      }
    }
  }

  lemma {:induction false} BelongsAfter(gone: seq<Node>, added: seq<Node>, ch: Change, key: Bytes)
    requires AllLeaves(added) && Belongs(ch, gone, added)
    requires forall i :: 0 <= i < |gone| ==> Less(key, gone[i].key)
    requires forall i :: 0 <= i < |added| ==> Less(key, added[i].key)
    ensures Less(key, ch.key)
  {
  }

  lemma {:induction false} PrependChange(ch: Change, cs: seq<Change>)
    requires SortedChanges(cs) && forall x :: x in cs ==> Less(ch.key, x.key)
    ensures SortedChanges([ch] + cs)
  {
  }

  lemma {:induction false} RestAfter(gone: seq<Node>, added: seq<Node>, ch: Change)
    requires SortedLeaves(gone) && SortedLeaves(added) && SortedChanges(MergeChanges(gone, added))
    requires forall i :: 0 <= i < |gone| ==> Less(ch.key, gone[i].key)
    requires forall i :: 0 <= i < |added| ==> Less(ch.key, added[i].key)
    ensures SortedChanges([ch] + MergeChanges(gone, added))
  {
    forall x | x in MergeChanges(gone, added) ensures Less(ch.key, x.key) {
      MergeExactly(gone, added, x);
      BelongsAfter(gone, added, x, ch.key);
    }
    PrependChange(ch, MergeChanges(gone, added));
  }

  /** The merge is strictly ascending. */
  lemma {:induction false} MergeAscends(gone: seq<Node>, added: seq<Node>)
    requires SortedLeaves(gone) && SortedLeaves(added)
    ensures SortedChanges(MergeChanges(gone, added))
    decreases |gone| + |added|
  {
    if gone == [] {
      if added != [] {
        HeadIsLeast(added, added[0].key);
        MergeAscends([], added[1..]);
        RestAfter([], added[1..], AssignOf(added[0]));
      }
    } else if added == [] || Less(gone[0].key, added[0].key) {
      HeadIsLeast(gone, gone[0].key);
      if added != [] {
        HeadIsLeast(added, gone[0].key);
      }
      MergeAscends(gone[1..], added);
      RestAfter(gone[1..], added, Erase(gone[0].key));
    } else {
      Trichotomy(gone[0].key, added[0].key);
      HeadIsLeast(added, added[0].key);
      HeadIsLeast(gone, added[0].key);
      if Less(added[0].key, gone[0].key) {
        MergeAscends(gone, added[1..]);
        RestAfter(gone, added[1..], AssignOf(added[0]));
      } else {
        HeadIsLeast(gone, gone[0].key);
        MergeAscends(gone[1..], added[1..]);
        RestAfter(gone[1..], added[1..], AssignOf(added[0]));
      }
    }
  }

  // ----- The leaves of a version -----

  lemma {:induction false} LeafIsNode(t: Node, x: Node)
    requires Ordered(t)
    ensures x in Nodes(t) && x.Leaf? <==> x.key in LeafMap(t) && LeafMap(t)[x.key] == x
  {
    if x in Nodes(t) && x.Leaf? {
      LeavesOfNodes(t, x);
      assert x.key in LeafMap(x);
    }
    if x.key in LeafMap(t) && LeafMap(t)[x.key] == x {
      LeafMapNodes(t, x.key);
    }
  }

  lemma {:induction false} LeafMapNodes(t: Node, key: Bytes)
    requires key in LeafMap(t)
    ensures LeafMap(t)[key] in Nodes(t) && LeafMap(t)[key].Leaf? && LeafMap(t)[key].key == key
  {
    if t.Inner? {
      if key in LeafMap(t.right) {
        LeafMapNodes(t.right, key);
      } else {
        LeafMapNodes(t.left, key);
      }
    }
  }

  lemma {:induction false} OutsideExactly(t: Node, kept: set<Node>, x: Node)
    requires Disowned(kept)
    ensures x in LeavesOutside(t, kept) <==> x in Nodes(t) && x.Leaf? && x !in kept
  {
    if t in kept {
      WholeKept(t, kept);
    } else if t.Inner? {
      OutsideExactly(t.left, kept, x);
      OutsideExactly(t.right, kept, x);
    }
  }

  lemma {:induction false} OutsideSorted(t: Node, kept: set<Node>)
    requires Ordered(t)
    ensures SortedLeaves(LeavesOutside(t, kept))
  {
    if t !in kept && t.Inner? {
      OutsideSorted(t.left, kept);
      OutsideSorted(t.right, kept);
      var a, b := LeavesOutside(t.left, kept), LeavesOutside(t.right, kept);
      forall i, j | 0 <= i < |a| && 0 <= j < |b| ensures Less(a[i].key, b[j].key) {
        LeavesAreNodes(t.left, kept, a[i]);
        LeavesAreNodes(t.right, kept, b[j]);
        LeafIsNode(t.left, a[i]);
        LeafIsNode(t.right, b[j]);
        Separated(t);
        LessLeq(a[i].key, t.key, b[j].key);
      }
    }
  }

  lemma {:induction false} SharedDisowned(p: Option<Node>, c: Option<Node>)
    ensures Disowned(Shared(p, c))
  {
    if p.Some? && c.Some? {
      NodesDisowned(p.value);
      NodesDisowned(c.value);
    }
  }

  lemma {:induction false} RootOutside(r: Option<Node>, kept: set<Node>, x: Node)
    requires (r.Some? ==> Ordered(r.value)) && Disowned(kept)
    ensures SortedLeaves(RootLeavesOutside(r, kept))
    ensures x in RootLeavesOutside(r, kept) <==> x.key in RootLeafMap(r) && RootLeafMap(r)[x.key] == x && x !in kept
  {
    if r.Some? {
      OutsideSorted(r.value, kept);
      OutsideExactly(r.value, kept, x);
      LeafIsNode(r.value, x);
    }
  }

  lemma {:induction false} OutsideKey(r: Option<Node>, kept: set<Node>, key: Bytes)
    requires (r.Some? ==> Ordered(r.value)) && Disowned(kept)
    ensures HasLeaf(RootLeavesOutside(r, kept), key) <==> key in RootLeafMap(r) && RootLeafMap(r)[key] !in kept
  {
    var s := RootLeavesOutside(r, kept);
    if HasLeaf(s, key) {
      var i :| 0 <= i < |s| && s[i].key == key;
      RootOutside(r, kept, s[i]);
    }
    if key in RootLeafMap(r) && RootLeafMap(r)[key] !in kept {
      LeafMapNodes(r.value, key);
      RootOutside(r, kept, RootLeafMap(r)[key]);
      var i :| 0 <= i < |s| && s[i] == RootLeafMap(r)[key];
    }
  }

  // ----- What the changes say -----

  /** A value is reported when its leaf is new, a deletion when the key is gone. */
  predicate IsChange(p: Option<Node>, c: Option<Node>, v: int, ch: Change) {
    if ch.Assign? then ch.key in RootLeafMap(c) && ch.key in RootModel(c) && RootModel(c)[ch.key] == ch.value
      && !IsOld(RootLeafMap(c)[ch.key], v)
    else ch.key in RootModel(p) && ch.key !in RootModel(c)
  }

  lemma {:induction false} RootLeaves(r: Option<Node>, key: Bytes)
    ensures key in RootModel(r) <==> key in RootLeafMap(r)
    ensures key in RootLeafMap(r) ==>
      && RootLeafMap(r)[key].Leaf? && RootLeafMap(r)[key].key == key && RootLeafMap(r)[key].value == RootModel(r)[key]
      && RootLeafMap(r)[key] in RootNodes(r)
  {
    if r.Some? {
      LeafMapIsModel(r.value);
      if key in LeafMap(r.value) {
        LeafMapNodes(r.value, key);
      }
    }
  }

  lemma {:induction false} LeafOf(r: Option<Node>, x: Node)
    requires (r.Some? ==> Ordered(r.value)) && x in RootNodes(r) && x.Leaf?
    ensures x.key in RootLeafMap(r) && RootLeafMap(r)[x.key] == x
  {
    LeafIsNode(r.value, x);
  }

  lemma {:induction false} AssignIsExact(p: Option<Node>, c: Option<Node>, v: int, ch: Change)
    requires Consecutive(p, c, v) && ch.Assign?
    ensures Belongs(ch, [], RootLeavesOutside(c, Shared(p, c))) <==> IsChange(p, c, v, ch)
  {
    var kept, added := Shared(p, c), RootLeavesOutside(c, Shared(p, c));
    SharedDisowned(p, c);
    RootLeaves(c, ch.key);
    if i :| 0 <= i < |added| && added[i].key == ch.key && added[i].value == ch.value {
      RootOutside(c, kept, added[i]);
      OldIsShared(p, c, v, added[i]);
    }
    if IsChange(p, c, v, ch) {
      var leaf := RootLeafMap(c)[ch.key];
      OldIsShared(p, c, v, leaf);
      RootOutside(c, kept, leaf);
      var i :| 0 <= i < |added| && added[i] == leaf;
      assert added[i].key == ch.key && added[i].value == ch.value;
    }
  }

  lemma {:induction false} EraseIsExact(p: Option<Node>, c: Option<Node>, v: int, key: Bytes)
    requires Consecutive(p, c, v)
    ensures HasLeaf(RootLeavesOutside(p, Shared(p, c)), key) && !HasLeaf(RootLeavesOutside(c, Shared(p, c)), key) <==>
      key in RootModel(p) && key !in RootModel(c)
  {
    var kept := Shared(p, c);
    SharedDisowned(p, c);
    OutsideKey(p, kept, key);
    OutsideKey(c, kept, key);
    RootLeaves(p, key);
    RootLeaves(c, key);
    if key in RootLeafMap(c) && RootLeafMap(c)[key] in kept {
      LeafOf(p, RootLeafMap(c)[key]);
    }
    if key in RootLeafMap(p) && RootLeafMap(p)[key] in kept {
      LeafOf(c, RootLeafMap(p)[key]);
    }
  }

  /** The changes between consecutive versions: exactly the new leaves as values and the keys gone as deletions. */
  lemma {:induction false} ChangesAreExact(p: Option<Node>, c: Option<Node>, v: int, ch: Change)
    requires Consecutive(p, c, v)
    ensures SortedChanges(Changes(p, c))
    ensures ch in Changes(p, c) <==> IsChange(p, c, v, ch)
  {
    var kept := Shared(p, c);
    var gone, added := RootLeavesOutside(p, kept), RootLeavesOutside(c, kept);
    SharedDisowned(p, c);
    RootOutside(p, kept, NewLeaf([], []));
    RootOutside(c, kept, NewLeaf([], []));
    MergeAscends(gone, added);
    MergeExactly(gone, added, ch);
    if ch.Assign? {
      AssignIsExact(p, c, v, ch);
    } else {
      EraseIsExact(p, c, v, ch.key);
    }
  }

  // ----- Applying sorted changes -----

  predicate SetsKey(cs: seq<Change>, key: Bytes) {
    exists i :: 0 <= i < |cs| && cs[i].Assign? && cs[i].key == key
  }

  predicate DeletesKey(cs: seq<Change>, key: Bytes) {
    exists i :: 0 <= i < |cs| && cs[i].Erase? && cs[i].key == key
  }

  lemma {:induction false} SplitLast(cs: seq<Change>, key: Bytes)
    requires cs != [] && SortedChanges(cs)
    ensures
      var front, last := cs[..|cs| - 1], cs[|cs| - 1];
      && SortedChanges(front)
      && (SetsKey(cs, key) <==> (last.Assign? && last.key == key) || SetsKey(front, key))
      && (DeletesKey(cs, key) <==> (last.Erase? && last.key == key) || DeletesKey(front, key))
      && (last.key == key ==> !SetsKey(front, key) && !DeletesKey(front, key))
  {
    var front, last := cs[..|cs| - 1], cs[|cs| - 1];
    if last.key == key {
      forall i | 0 <= i < |front| ensures front[i].key != key {
        Trichotomy(cs[i].key, last.key);
      }
      assert cs[|cs| - 1].key == key;
    }
    if SetsKey(front, key) {
      var i :| 0 <= i < |front| && front[i].Assign? && front[i].key == key;
      assert cs[i].Assign? && cs[i].key == key;
    }
    if DeletesKey(front, key) {
      var i :| 0 <= i < |front| && front[i].Erase? && front[i].key == key;
      assert cs[i].Erase? && cs[i].key == key;
    }
    if SetsKey(cs, key) && !(last.Assign? && last.key == key) {
      var i :| 0 <= i < |cs| && cs[i].Assign? && cs[i].key == key;
      assert front[i].Assign? && front[i].key == key;
    }
    if DeletesKey(cs, key) && !(last.Erase? && last.key == key) {
      var i :| 0 <= i < |cs| && cs[i].Erase? && cs[i].key == key;
      assert front[i].Erase? && front[i].key == key;
    }
  }

  /** What sorted changes do to one key. */
  lemma {:induction false} AppliedAt(m: map<Bytes, Bytes>, cs: seq<Change>, key: Bytes)
    requires SortedChanges(cs)
    ensures
      var r := ApplyChanges(m, cs);
      && (SetsKey(cs, key) ==> key in r && Assign(key, r[key]) in cs && !DeletesKey(cs, key))
      && (DeletesKey(cs, key) ==> key !in r)
      && (!SetsKey(cs, key) && !DeletesKey(cs, key) ==> (key in r <==> key in m) && (key in r ==> r[key] == m[key]))
  {
    if cs != [] {
      SplitLast(cs, key);
      AppliedAt(m, cs[..|cs| - 1], key);
      assert cs == cs[..|cs| - 1] + [cs[|cs| - 1]];
    }
  }

  /** The changes between two consecutive versions turn the older map into the newer one. */
  lemma {:induction false} ChangesTransform(p: Option<Node>, c: Option<Node>, v: int)
    requires Consecutive(p, c, v)
    ensures ApplyChanges(RootModel(p), Changes(p, c)) == RootModel(c)
  {
    var cs, r := Changes(p, c), ApplyChanges(RootModel(p), Changes(p, c));
    forall key ensures (key in r <==> key in RootModel(c)) && (key in r ==> r[key] == RootModel(c)[key]) {
      TransformedAt(p, c, v, key);
    }
  }

  lemma {:induction false} MemberAssigned(cs: seq<Change>, ch: Change)
    requires ch in cs
    ensures if ch.Assign? then SetsKey(cs, ch.key) else DeletesKey(cs, ch.key)
  {
    var i :| 0 <= i < |cs| && cs[i] == ch;
  }

  lemma {:induction false} ErasedIsMember(cs: seq<Change>, key: Bytes)
    ensures DeletesKey(cs, key) <==> Erase(key) in cs
  {
    if DeletesKey(cs, key) {
      var i :| 0 <= i < |cs| && cs[i].Erase? && cs[i].key == key;
      assert cs[i] == Erase(key);
    }
  }

  lemma {:induction false} TransformedAt(p: Option<Node>, c: Option<Node>, v: int, key: Bytes)
    requires Consecutive(p, c, v)
    ensures var r := ApplyChanges(RootModel(p), Changes(p, c));
      (key in r <==> key in RootModel(c)) && (key in r ==> r[key] == RootModel(c)[key])
  {
    var cs := Changes(p, c);
    ChangesAreExact(p, c, v, Erase(key));
    AppliedAt(RootModel(p), cs, key);
    ErasedIsMember(cs, key);
    if SetsKey(cs, key) {
      ChangesAreExact(p, c, v, Assign(key, ApplyChanges(RootModel(p), cs)[key]));
    } else if key in RootModel(c) {
      RootLeaves(c, key);
      ChangesAreExact(p, c, v, Assign(key, RootModel(c)[key]));
      if Assign(key, RootModel(c)[key]) in cs {
        MemberAssigned(cs, Assign(key, RootModel(c)[key]));
      }
      OldIsShared(p, c, v, RootLeafMap(c)[key]);
      LeafOf(p, RootLeafMap(c)[key]);
      RootLeaves(p, key);
    } else if key in RootModel(p) {
      MemberAssigned(cs, Erase(key));
    }
  }

  /** Two strictly ascending change sets with the same changes are the same. */
  lemma {:induction false} SameChanges(a: seq<Change>, b: seq<Change>)
    requires SortedChanges(a) && SortedChanges(b) && forall ch :: ch in a <==> ch in b
    ensures a == b
  {
    assert b != [] ==> b[0] in b;
    if a != [] {
      assert a[0] in a;
      var i :| 0 <= i < |b| && b[i] == a[0];
      var j :| 0 <= j < |a| && a[j] == b[0];
      Trichotomy(a[0].key, b[0].key);
      assert a[0] == b[0];
      forall ch ensures ch in a[1..] <==> ch in b[1..] {
        HeadOnce(a, ch);
        HeadOnce(b, ch);
      }
      SameChanges(a[1..], b[1..]);
      assert a == [a[0]] + a[1..] && b == [b[0]] + b[1..];
    }
  }

  lemma {:induction false} HeadOnce(s: seq<Change>, ch: Change)
    requires s != [] && SortedChanges(s)
    ensures ch in s[1..] <==> ch in s && ch != s[0]
    ensures SortedChanges(s[1..])
  {
    UnconsChange(s, ch);
    if ch in s[1..] {
      var i :| 0 <= i < |s[1..]| && s[1..][i] == ch;
      Trichotomy(s[0].key, s[i + 1].key);
    }
  }

  // ----- Extraction from the store -----

  function ReadRoot(db: Db, root: Option<NodeKey>): Option<Node> {
    if root.None? then None else ReadTree(db, root.value)
  }

  /** There is no root, or the whole tree below it is stored. */
  predicate ReadsWhole(db: Db, root: Option<NodeKey>) {
    root.Some? ==> ReadTree(db, root.value).Some?
  }

  /**
   * `extractStateChanges` on the stored trees of two consecutive versions returns exactly their changes. It needs both
   * root nodes; on a store that lacks a node below them nothing is promised.
   */
  method ExtractStateChanges(db: Db, sha: Digest, prevVersion: int, prevRoot: Option<NodeKey>, root: Option<NodeKey>)
    returns (r: Result<seq<Change>, DbError>)
    ensures (root.Some? && root.value !in db) || (prevRoot.Some? && prevRoot.value !in db) ==> r.Err?
    ensures ReadsWhole(db, root) && ReadsWhole(db, prevRoot) ==>
      var p, c := ReadRoot(db, prevRoot), ReadRoot(db, root);
      && r.Ok?
      && (Walkable(sha, p, c, prevVersion) ==>
            && r.value == Changes(p, c) && SortedChanges(r.value)
            && ApplyChanges(RootModel(p), r.value) == RootModel(c))
  {
    var curStart := NewNodeIterator(db, root);
    if curStart.Err? {
      return Err(curStart.error);
    }
    var prevStart := NewNodeIterator(db, prevRoot);
    if prevStart.Err? {
      return Err(prevStart.error);
    }
    ghost var p, c := ReadRoot(db, prevRoot), ReadRoot(db, root);
    LoadedRoot(db, prevRoot);
    LoadedRoot(db, root);
    var changes := new StateChanges(sha, prevVersion, prevStart.value, curStart.value);
    changes.Walk(p, c);
    if Walkable(sha, p, c, prevVersion) {
      ChangesAreExact(p, c, prevVersion, Erase([]));
      ChangesTransform(p, c, prevVersion);
    }
    return Ok(changes.pairs);
  }

  lemma {:induction false} LoadedRoot(db: Db, root: Option<NodeKey>)
    ensures ReadRoot(db, root).Some? ==> AllLoaded(db, [ReadRoot(db, root).value])
  {
  }
}
