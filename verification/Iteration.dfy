/**
 * What a range iteration over a tree lists, in terms of the map and of key order alone, and that it lists the same
 * entries as the iterator over the fast index.
 */
module Iteration {
  import opened Base
  import opened Trees
  import opened Update
  import opened FastIndex
  import T = Traversal
  import F = FastIterator
  import Store

  function EntryOf(t: Node): F.Entry {
    F.Entry(t.key, if t.Leaf? then t.value else [])
  }

  function Entries(s: seq<Node>): (r: seq<F.Entry>)
    ensures |r| == |s| && forall i :: 0 <= i < |s| ==> r[i] == EntryOf(s[i])
  {
    seq(|s|, i requires 0 <= i < |s| => EntryOf(s[i]))
  }

  /** From the start on, and up to the end: the end itself belongs to an inclusive range only. */
  predicate Within(key: Bytes, start: Option<Bytes>, end: Option<Bytes>, inclusive: bool) {
    && (start.Some? ==> Leq(start.value, key))
    && (end.Some? ==> if inclusive then Leq(key, end.value) else Less(key, end.value))
  }

  /** Exactly the entries of `m` within the range, in the requested direction, each once. */
  ghost predicate ListsWithin(s: seq<F.Entry>, m: map<Bytes, Bytes>, p: T.Plan) {
    && F.SortedEntries(s, p.ascending)
    && (forall e {:trigger e in s} :: e in s <==>
          e.key in m && m[e.key] == e.value && Within(e.key, p.start, p.end, p.inclusive))
  }

  // ----- Filtering and reversing -----

  lemma {:induction false} FilterKeeps(p: T.Plan, s: seq<Node>, x: Node)
    ensures x in T.Filter(p, s) <==> x in s && T.InRange(p, x.key)
  {
    if s != [] {
      FilterKeeps(p, s[1..], x);
    }
  }

  lemma {:induction false} FilterSorted(p: T.Plan, s: seq<Node>)
    requires SortedLeaves(s)
    ensures SortedLeaves(T.Filter(p, s))
  {
    if s != [] {
      FilterSorted(p, s[1..]);
      var rest := T.Filter(p, s[1..]);
      forall j | 0 <= j < |rest| ensures Less(s[0].key, rest[j].key) {
        FilterKeeps(p, s[1..], rest[j]);
      }
    }
  }

  lemma {:induction false} ReverseAt(s: seq<Node>)
    ensures |T.Reverse(s)| == |s| && forall i :: 0 <= i < |s| ==> T.Reverse(s)[i] == s[|s| - 1 - i]
  {
    if s != [] {
      ReverseAt(s[1..]);
    }
  }

  lemma {:induction false} ReverseKeeps(s: seq<Node>, x: Node)
    ensures x in T.Reverse(s) <==> x in s
  {
    ReverseAt(s);
    if x in s {
      var i :| 0 <= i < |s| && s[i] == x;
      assert T.Reverse(s)[|s| - 1 - i] == x;
    }
  }

  lemma {:induction false} DirectedSorted(p: T.Plan, s: seq<Node>)
    requires SortedLeaves(s)
    ensures F.SortedEntries(Entries(T.Directed(p, s)), p.ascending)
    ensures forall i :: 0 <= i < |T.Directed(p, s)| ==> T.Directed(p, s)[i].Leaf?
  {
    ReverseAt(s);
  }

  // ----- What the traversal lists -----

  lemma {:induction false} InRangeIsWithin(p: T.Plan, key: Bytes)
    ensures T.InRange(p, key) <==> Within(key, p.start, p.end, p.inclusive)
  {
  }

  lemma {:induction false} EntryOfLeaf(s: seq<Node>, e: F.Entry)
    requires forall i :: 0 <= i < |s| ==> s[i].Leaf?
    ensures e in Entries(s) <==> exists x :: x in s && x.key == e.key && x.Leaf? && x.value == e.value
  {
    var r := Entries(s);
    if e in r {
      var i :| 0 <= i < |r| && r[i] == e;
      assert s[i] in s;
    }
    if x :| x in s && x.key == e.key && x.Leaf? && x.value == e.value {
      var i :| 0 <= i < |s| && s[i] == x;
      assert r[i] == e;
    }
  }

  lemma {:induction false} VisitedLeaf(p: T.Plan, t: Node, x: Node)
    requires Ordered(t)
    ensures x in T.OnlyLeaves(T.Visit(p, t)) <==>
      && x.Leaf? && x.key in LeafMap(t) && x == LeafMap(t)[x.key] && Within(x.key, p.start, p.end, p.inclusive)
  {
    T.VisitsLeavesInRange(p, t);
    FilterKeeps(p, LeafSeq(t), x);
    ReverseKeeps(T.Filter(p, LeafSeq(t)), x);
    LeafSeqMatchesMap(t);
    LeafMapIsModel(t);
    InRangeIsWithin(p, x.key);
  }

  lemma {:induction false} VisitedEntry(p: T.Plan, t: Node, s: seq<Node>, e: F.Entry)
    requires Ordered(t) && s == T.OnlyLeaves(T.Visit(p, t)) && forall i :: 0 <= i < |s| ==> s[i].Leaf?
    ensures e in Entries(s) <==>
      e.key in Model(t) && Model(t)[e.key] == e.value && Within(e.key, p.start, p.end, p.inclusive)
  {
    EntryOfLeaf(s, e);
    LeafMapIsModel(t);
    if e.key in Model(t) {
      VisitedLeaf(p, t, LeafMap(t)[e.key]);
    }
    if x :| x in s && x.key == e.key && x.Leaf? && x.value == e.value {
      VisitedLeaf(p, t, x);
    }
  }

  /**
   * For every range, direction and inclusiveness, the leaves visited are exactly the entries of the tree's map within
   * the range, in the requested direction, each once.
   */
  lemma {:induction false} TreeLists(p: T.Plan, t: Node)
    requires Ordered(t)
    ensures ListsWithin(Entries(T.OnlyLeaves(T.Visit(p, t))), Model(t), p)
  {
    var s := T.OnlyLeaves(T.Visit(p, t));
    T.VisitsLeavesInRange(p, t);
    LeafSeqSorted(t);
    FilterSorted(p, LeafSeq(t));
    DirectedSorted(p, T.Filter(p, LeafSeq(t)));
    forall e {:trigger e in Entries(s)} ensures e in Entries(s) <==>
        e.key in Model(t) && Model(t)[e.key] == e.value && Within(e.key, p.start, p.end, p.inclusive)
    {
      VisitedEntry(p, t, s, e);
    }
  }

  // ----- The two iterators agree -----

  lemma {:induction false} WithinIsInRange(key: Bytes, start: Option<Bytes>, end: Option<Bytes>)
    ensures F.InRange(key, start, end) <==> Within(key, start, end, false)
  {
    if start.Some? {
      Trichotomy(start.value, key);
    }
  }

  /** Without the end, the entries are those the fast iterator is held to. */
  lemma {:induction false} ListsAlike(s: seq<F.Entry>, m: map<Bytes, Bytes>, p: T.Plan)
    requires !p.inclusive
    ensures ListsWithin(s, m, p) <==> F.Lists(s, m, p.start, p.end, p.ascending)
  {
    forall e: F.Entry ensures F.InRange(e.key, p.start, p.end) <==> Within(e.key, p.start, p.end, false) {
      WithinIsInRange(e.key, p.start, p.end);
    }
  }

  lemma {:induction false} NothingBefore(a: seq<F.Entry>, b: seq<F.Entry>, ascending: bool)
    requires F.SortedEntries(a, ascending) && F.SortedEntries(b, ascending) && a != [] && a[0] in b
    requires b[0] in a
    ensures a[0] == b[0]
  {
    if a[0] != b[0] {
      var i :| 0 < i < |b| && b[i] == a[0];
      var j :| 0 < j < |a| && a[j] == b[0];
      F.BeforeTrichotomy(a[0].key, b[0].key, ascending);
    }
  }

  lemma {:induction false} SortedTail(a: seq<F.Entry>, ascending: bool, e: F.Entry)
    requires F.SortedEntries(a, ascending) && a != []
    ensures F.SortedEntries(a[1..], ascending)
    ensures e in a[1..] <==> e in a && e != a[0]
  {
    if e in a[1..] {
      var i :| 1 <= i < |a| && a[i] == e;
      F.BeforeTrichotomy(a[0].key, a[i].key, ascending);
    }
  }

  /** A sorted list is determined by its entries. */
  lemma {:induction false} SortedIsUnique(a: seq<F.Entry>, b: seq<F.Entry>, ascending: bool)
    requires F.SortedEntries(a, ascending) && F.SortedEntries(b, ascending)
    requires forall e {:trigger e in a} {:trigger e in b} :: e in a <==> e in b
    ensures a == b
  {
    assert a != [] ==> a[0] in a;
    assert b != [] ==> b[0] in b;
    if a != [] {
      NothingBefore(a, b, ascending);
      forall e {:trigger e in a[1..]} {:trigger e in b[1..]} ensures e in a[1..] <==> e in b[1..] {
        SortedTail(a, ascending, e);
        SortedTail(b, ascending, e);
      }
      SortedTail(a, ascending, a[0]);
      SortedTail(b, ascending, b[0]);
      SortedIsUnique(a[1..], b[1..], ascending);
      assert a == [a[0]] + a[1..] && b == [b[0]] + b[1..];
    }
  }

  lemma {:induction false} ListsIsUnique(a: seq<F.Entry>, b: seq<F.Entry>, m: map<Bytes, Bytes>, p: T.Plan)
    requires ListsWithin(a, m, p) && ListsWithin(b, m, p)
    ensures a == b
  {
    SortedIsUnique(a, b, p.ascending);
  }

  /** A walk over a tree that may be absent. */
  function Walked(p: T.Plan, root: Option<Node>): seq<Node> {
    if root.None? then [] else T.Visit(p, root.value)
  }

  lemma {:induction false} RootLists(p: T.Plan, root: Option<Node>)
    requires AvlRoot(root)
    ensures ListsWithin(Entries(T.OnlyLeaves(Walked(p, root))), RootModel(root), p)
  {
    if root.Some? {
      TreeLists(p, root.value);
    }
  }

  /** The walk over the working tree and the merge of index and overlay list the same entries in the same order. */
  lemma {:induction false} IteratorsAgree(f: FastState, h: Store.History, disk: seq<F.Entry>, keys: seq<Bytes>,
                                          p: T.Plan)
    requires FastInv(f, h) && !f.skip && !p.inclusive
    requires F.Lists(disk, F.Values(f.fast), p.start, p.end, p.ascending)
    requires F.SortedKeys(keys, p.ascending)
    requires forall k :: k in keys <==> k in f.additions && F.InRange(k, p.start, p.end)
    ensures forall i :: 0 <= i < |keys| ==> keys[i] in f.additions
    ensures F.Merge(disk, F.Additions(keys, f.additions), f.removals, p.ascending) ==
      Entries(T.OnlyLeaves(Walked(p, f.tree.root)))
  {
    F.IteratesWorkingTree(f, h, disk, keys, p.start, p.end, p.ascending);
    var merged := F.Merge(disk, F.Additions(keys, f.additions), f.removals, p.ascending);
    var walked := Entries(T.OnlyLeaves(Walked(p, f.tree.root)));
    RootLists(p, f.tree.root);
    ListsAlike(merged, RootModel(f.tree.root), p);
    ListsIsUnique(merged, walked, RootModel(f.tree.root), p);
  }

  // ----- The loops of the callers -----

  lemma {:induction false} EntriesStep(s: seq<Node>)
    requires s != []
    ensures Entries(s) == [EntryOf(s[0])] + Entries(s[1..])
  {
  }

  /** `IterateRange` and `IterateRangeInclusive`: every leaf the traversal returns is passed on. */
  method IterateRange(root: Option<Node>, start: Option<Bytes>, end: Option<Bytes>, ascending: bool, inclusive: bool)
    returns (out: seq<F.Entry>)
    ensures AvlRoot(root) ==> ListsWithin(out, RootModel(root), T.Plan(start, end, ascending, inclusive, false))
  {
    var plan := T.Plan(start, end, ascending, inclusive, false);
    var walker := new T.Walker(root, plan);
    out := Leaves(walker);
    if AvlRoot(root) {
      RootLists(plan, root);
    }
  }

  lemma {:induction false} LeavesStep(out: seq<F.Entry>, node: Node, rest: seq<Node>)
    ensures out + Entries(T.OnlyLeaves([node] + rest)) ==
      (if node.Leaf? then out + [F.Entry(node.key, node.value)] else out) + Entries(T.OnlyLeaves(rest))
  {
    assert ([node] + rest)[1..] == rest;
    if node.Leaf? {
      EntriesStep([node] + T.OnlyLeaves(rest));
      assert ([node] + T.OnlyLeaves(rest))[1..] == T.OnlyLeaves(rest);
      Regroup(out, [EntryOf(node)], Entries(T.OnlyLeaves(rest)));
    } else {
      assert [] + T.OnlyLeaves(rest) == T.OnlyLeaves(rest);
    }
  }

  method Leaves(walker: T.Walker) returns (out: seq<F.Entry>)
    modifies walker
    ensures out == Entries(T.OnlyLeaves(old(walker.Rest())))
  {
    out := [];
    ghost var all := Entries(T.OnlyLeaves(walker.Rest()));
    while true
      invariant all == out + Entries(T.OnlyLeaves(walker.Rest()))
      decreases |walker.Rest()|
    {
      var node := walker.Next();
      if node.None? {
        return;
      }
      LeavesStep(out, node.value, walker.Rest());
      if node.value.Leaf? {
        out := out + [F.Entry(node.value.key, node.value.value)];
      }
    }
  }

  /** What an iterator still shows: its current entry and those ahead. */
  function Shown(iter: T.LeafIterator): seq<F.Entry>
    reads iter, iter.walker
  {
    if iter.valid then [F.Entry(iter.key, iter.value)] + Entries(iter.Ahead()) else []
  }

  /** `NewIterator` stands on the first entry. */
  method First(walker: T.Walker) returns (iter: T.LeafIterator)
    requires !walker.plan.post
    modifies walker
    ensures fresh(iter) && iter.walker == walker && iter.valid == !iter.done
    ensures Shown(iter) == Entries(T.OnlyLeaves(old(walker.Rest())))
  {
    ghost var all := T.OnlyLeaves(walker.Rest());
    iter := new T.LeafIterator(walker);
    iter.Next();
    if all != [] {
      EntriesStep(all);
    }
  }

  method Step(iter: T.LeafIterator)
    requires iter.valid == !iter.done
    modifies iter, iter.walker
    ensures iter.valid == !iter.done
    ensures old(iter.valid) ==> old(Shown(iter)) == [old(F.Entry(iter.key, iter.value))] + Shown(iter)
  {
    ghost var ahead := iter.Ahead();
    iter.Next();
    if ahead != [] {
      EntriesStep(ahead);
    }
  }

  /** The loop of every caller: while valid, take the current entry and move on. */
  method Collect(iter: T.LeafIterator) returns (out: seq<F.Entry>)
    requires iter.valid == !iter.done
    modifies iter, iter.walker
    ensures out == old(Shown(iter))
  {
    out := [];
    ghost var all := Shown(iter);
    while iter.valid
      invariant iter.valid == !iter.done && all == out + Shown(iter)
      decreases |Shown(iter)|
    {
      var e := F.Entry(iter.key, iter.value);
      Step(iter);
      Regroup(out, [e], Shown(iter));
      out := out + [e];
    }
  }

  lemma {:induction false} WalkListed(root: Option<Node>, p: T.Plan, out: seq<F.Entry>)
    requires AvlRoot(root) && !p.inclusive && out == Entries(T.OnlyLeaves(Walked(p, root)))
    ensures F.Lists(out, RootModel(root), p.start, p.end, p.ascending)
  {
    RootLists(p, root);
    ListsAlike(out, RootModel(root), p);
  }

  /** A tree iterator lists exactly the entries of the tree from the start up to the end, in its direction. */
  method Iterate(root: Option<Node>, start: Option<Bytes>, end: Option<Bytes>, ascending: bool)
    returns (out: seq<F.Entry>)
    ensures AvlRoot(root) ==> F.Lists(out, RootModel(root), start, end, ascending)
  {
    var plan := T.Plan(start, end, ascending, false, false);
    var walker := new T.Walker(root, plan);
    var iter := First(walker);
    out := Collect(iter);
    if AvlRoot(root) {
      WalkListed(root, plan, out);
    }
  }
}
