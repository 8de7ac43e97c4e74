/**
 * The iterator over the working state: entries on disk, in key order, merged with the sorted unsaved additions
 * while removed keys are skipped.
 */
module FastIterator {
  import opened Base
  import opened Update
  import opened FastIndex
  import Store

  datatype Entry = Entry(key: Bytes, value: Bytes)

  /** `a` comes before `b` in the direction of the iteration. */
  predicate Before(a: Bytes, b: Bytes, ascending: bool) {
    if ascending then Less(a, b) else Less(b, a)
  }

  /** A missing bound is open; the start is inclusive, the end exclusive. */
  predicate InRange(key: Bytes, start: Option<Bytes>, end: Option<Bytes>) {
    !(start.Some? && Less(key, start.value)) && !(end.Some? && !Less(key, end.value))
  }

  predicate SortedKeys(s: seq<Bytes>, ascending: bool) {
    forall i, j :: 0 <= i < j < |s| ==> Before(s[i], s[j], ascending)
  }

  predicate SortedEntries(s: seq<Entry>, ascending: bool) {
    forall i, j :: 0 <= i < j < |s| ==> Before(s[i].key, s[j].key, ascending)
  }

  lemma {:induction false} BeforeTransitive(a: Bytes, b: Bytes, c: Bytes, ascending: bool)
    requires Before(a, b, ascending) && Before(b, c, ascending)
    ensures Before(a, c, ascending)
  {
    if ascending {
      Transitive(a, b, c);
    } else {
      Transitive(c, b, a);
    }
  }

  lemma {:induction false} BeforeTrichotomy(a: Bytes, b: Bytes, ascending: bool)
    ensures Before(a, b, ascending) || Before(b, a, ascending) || a == b
    ensures !(Before(a, b, ascending) && Before(b, a, ascending)) && !Before(a, a, ascending)
  {
    Trichotomy(a, b);
    Trichotomy(a, a);
  }

  // ----- The merge -----

  /** What an iterator with these entries ahead of it still yields. */
  function Merge(disk: seq<Entry>, unsaved: seq<Entry>, removals: set<Bytes>, ascending: bool): seq<Entry>
    decreases |disk| + |unsaved|
  {
    if disk == [] then unsaved
    else if disk[0].key in removals then Merge(disk[1..], unsaved, removals, ascending)
    else if unsaved == [] then [disk[0]] + Merge(disk[1..], unsaved, removals, ascending)
    else if disk[0].key == unsaved[0].key then [unsaved[0]] + Merge(disk[1..], unsaved[1..], removals, ascending)
    else if Before(disk[0].key, unsaved[0].key, ascending) then
      [disk[0]] + Merge(disk[1..], unsaved, removals, ascending)
    else [unsaved[0]] + Merge(disk, unsaved[1..], removals, ascending)
  }

  predicate HasKey(s: seq<Entry>, key: Bytes) {
    exists i :: 0 <= i < |s| && s[i].key == key
  }

  /** An entry of the merge: an unsaved one, or one from disk that is neither removed nor overridden. */
  predicate Shown(e: Entry, disk: seq<Entry>, unsaved: seq<Entry>, removals: set<Bytes>) {
    e in unsaved || (e in disk && e.key !in removals && !HasKey(unsaved, e.key))
  }

  lemma {:induction false} HeadFirst(s: seq<Entry>, ascending: bool, key: Bytes)
    requires s != [] && SortedEntries(s, ascending) && (key == s[0].key || Before(key, s[0].key, ascending))
    ensures SortedEntries(s[1..], ascending) && !HasKey(s[1..], key)
    ensures key != s[0].key ==> !HasKey(s, key)
    ensures forall i :: 1 <= i < |s| ==> Before(key, s[i].key, ascending)
  {
    forall i | 1 <= i < |s| ensures Before(key, s[i].key, ascending) && s[i].key != key {
      if key != s[0].key {
        BeforeTransitive(key, s[0].key, s[i].key, ascending);
      }
      BeforeTrichotomy(key, s[i].key, ascending);
    }
    BeforeTrichotomy(key, s[0].key, ascending);
  }

  lemma {:induction false} Uncons(s: seq<Entry>, e: Entry)
    requires s != []
    ensures e in s <==> e == s[0] || e in s[1..]
  {
    assert s == [s[0]] + s[1..];
  }

  lemma {:induction false} UnconsKey(s: seq<Entry>, key: Bytes)
    requires s != []
    ensures HasKey(s, key) <==> key == s[0].key || HasKey(s[1..], key)
  {
    if key == s[0].key {
      assert s[0].key == key;
    }
    if HasKey(s[1..], key) {
      var i :| 0 <= i < |s[1..]| && s[1..][i].key == key;
      assert s[i + 1].key == key;
    }
    if HasKey(s, key) && key != s[0].key {
      var i :| 0 <= i < |s| && s[i].key == key;
      assert s[1..][i - 1].key == key;
    }
  }

  lemma {:induction false} NoKeyNoEntry(s: seq<Entry>, e: Entry)
    requires e in s
    ensures HasKey(s, e.key)
  {
    var i :| 0 <= i < |s| && s[i] == e;
  }

  /** The merge shows exactly the right entries. */
  lemma {:induction false} MergeShows(disk: seq<Entry>, unsaved: seq<Entry>, removals: set<Bytes>, ascending: bool,
                                      e: Entry)
    requires SortedEntries(disk, ascending) && SortedEntries(unsaved, ascending)
    ensures e in Merge(disk, unsaved, removals, ascending) <==> Shown(e, disk, unsaved, removals)
    decreases |disk| + |unsaved|
  {
    if disk != [] {
      HeadFirst(disk, ascending, disk[0].key);
      Uncons(disk, e);
      if disk[0].key in removals {
        MergeShows(disk[1..], unsaved, removals, ascending, e);
      } else if unsaved == [] {
        MergeShows(disk[1..], unsaved, removals, ascending, e);
      } else {
        HeadFirst(unsaved, ascending, unsaved[0].key);
        Uncons(unsaved, e);
        UnconsKey(unsaved, e.key);
        BeforeTrichotomy(disk[0].key, unsaved[0].key, ascending);
        if disk[0].key == unsaved[0].key {
          MergeShows(disk[1..], unsaved[1..], removals, ascending, e);
          if e in disk[1..] {
            NoKeyNoEntry(disk[1..], e);
          }
        } else if Before(disk[0].key, unsaved[0].key, ascending) {
          MergeShows(disk[1..], unsaved, removals, ascending, e);
          HeadFirst(unsaved, ascending, disk[0].key);
        } else {
          MergeShows(disk, unsaved[1..], removals, ascending, e);
          HeadFirst(disk, ascending, unsaved[0].key);
          if e in disk {
            NoKeyNoEntry(disk, e);
          }
        }
      }
    }
  }

  lemma {:induction false} Prepend(e: Entry, s: seq<Entry>, ascending: bool)
    requires SortedEntries(s, ascending) && forall x :: x in s ==> Before(e.key, x.key, ascending)
    ensures SortedEntries([e] + s, ascending)
  {
  }

  lemma {:induction false} AllAfter(disk: seq<Entry>, unsaved: seq<Entry>, removals: set<Bytes>, ascending: bool,
                                    key: Bytes)
    requires SortedEntries(disk, ascending) && SortedEntries(unsaved, ascending)
    requires forall i :: 0 <= i < |disk| ==> Before(key, disk[i].key, ascending)
    requires forall i :: 0 <= i < |unsaved| ==> Before(key, unsaved[i].key, ascending)
    ensures forall x :: x in Merge(disk, unsaved, removals, ascending) ==> Before(key, x.key, ascending)
  {
    forall x | x in Merge(disk, unsaved, removals, ascending) ensures Before(key, x.key, ascending) {
      MergeShows(disk, unsaved, removals, ascending, x);
    }
  }

  /** The merge is in strict key order, so no key is shown twice. */
  lemma {:induction false} MergeSorted(disk: seq<Entry>, unsaved: seq<Entry>, removals: set<Bytes>, ascending: bool)
    requires SortedEntries(disk, ascending) && SortedEntries(unsaved, ascending)
    ensures SortedEntries(Merge(disk, unsaved, removals, ascending), ascending)
    decreases |disk| + |unsaved|
  {
    if disk != [] {
      var d := disk[0].key;
      HeadFirst(disk, ascending, d);
      if d in removals {
        MergeSorted(disk[1..], unsaved, removals, ascending);
      } else if unsaved == [] {
        MergeSorted(disk[1..], unsaved, removals, ascending);
        AllAfter(disk[1..], unsaved, removals, ascending, d);
        Prepend(disk[0], Merge(disk[1..], unsaved, removals, ascending), ascending);
      } else {
        var u := unsaved[0].key;
        HeadFirst(unsaved, ascending, u);
        BeforeTrichotomy(d, u, ascending);
        if d == u {
          MergeSorted(disk[1..], unsaved[1..], removals, ascending);
          AllAfter(disk[1..], unsaved[1..], removals, ascending, u);
          Prepend(unsaved[0], Merge(disk[1..], unsaved[1..], removals, ascending), ascending);
        } else if Before(d, u, ascending) {
          HeadFirst(unsaved, ascending, d);
          MergeSorted(disk[1..], unsaved, removals, ascending);
          AllAfter(disk[1..], unsaved, removals, ascending, d);
          Prepend(disk[0], Merge(disk[1..], unsaved, removals, ascending), ascending);
        } else {
          HeadFirst(disk, ascending, u);
          MergeSorted(disk, unsaved[1..], removals, ascending);
          AllAfter(disk, unsaved[1..], removals, ascending, u);
          Prepend(unsaved[0], Merge(disk, unsaved[1..], removals, ascending), ascending);
        }
      }
    }
  }

  // ----- Sorting the additions -----

  method InsertKey(s: seq<Bytes>, key: Bytes, ascending: bool) returns (r: seq<Bytes>)
    requires SortedKeys(s, ascending) && key !in s
    ensures SortedKeys(r, ascending)
    ensures forall k :: k in r <==> k == key || k in s
  {
    var i := 0;
    while i < |s| && Before(s[i], key, ascending)
      invariant 0 <= i <= |s|
      invariant forall j :: 0 <= j < i ==> Before(s[j], key, ascending)
    {
      i := i + 1;
    }
    forall j | i <= j < |s| ensures Before(key, s[j], ascending) {
      BeforeTrichotomy(s[i], key, ascending);
      if i < j {
        BeforeTransitive(key, s[i], s[j], ascending);
      }
    }
    r := s[..i] + [key] + s[i..];
    assert s == s[..i] + s[i..];
  }

  /** The keys of an overlay in range, sorted in the direction of the iteration. */
  method KeysToSort(unsaved: set<Bytes>, start: Option<Bytes>, end: Option<Bytes>, ascending: bool)
    returns (keys: seq<Bytes>)
    ensures SortedKeys(keys, ascending)
    ensures forall k :: k in keys <==> k in unsaved && InRange(k, start, end)
  {
    keys := [];
    var rest := unsaved;
    while rest != {}
      invariant rest <= unsaved && SortedKeys(keys, ascending)
      invariant forall k :: k in keys <==> k in unsaved - rest && InRange(k, start, end)
      decreases |rest|
    {
      var k :| k in rest;
      rest := rest - {k};
      if InRange(k, start, end) {
        keys := InsertKey(keys, k, ascending);
      }
    }
  }

  // ----- The iterator -----

  function Additions(keys: seq<Bytes>, additions: map<Bytes, FastNode>): (s: seq<Entry>)
    requires forall i :: 0 <= i < |keys| ==> keys[i] in additions
    ensures |s| == |keys| && forall i :: 0 <= i < |keys| ==> s[i] == Entry(keys[i], additions[keys[i]].value)
  {
    seq(|keys|, i requires 0 <= i < |keys| => Entry(keys[i], additions[keys[i]].value))
  }

  /** The first entry of a merge with both sources at hand. */
  lemma {:induction false} MergeCompares(disk: seq<Entry>, unsaved: seq<Entry>, removals: set<Bytes>, ascending: bool)
    requires disk != [] && unsaved != [] && disk[0].key !in removals
    ensures Merge(disk, unsaved, removals, ascending) ==
      if Before(disk[0].key, unsaved[0].key, ascending) then [disk[0]] + Merge(disk[1..], unsaved, removals, ascending)
      else if disk[0].key == unsaved[0].key then [unsaved[0]] + Merge(disk[1..], unsaved[1..], removals, ascending)
      else [unsaved[0]] + Merge(disk, unsaved[1..], removals, ascending)
  {
    BeforeTrichotomy(disk[0].key, unsaved[0].key, ascending);
  }

  lemma {:induction false} KeysFit(keys: seq<Bytes>, additions: map<Bytes, FastNode>, start: Option<Bytes>,
                                   end: Option<Bytes>)
    requires forall k :: k in keys <==> k in additions.Keys && InRange(k, start, end)
    ensures forall i :: 0 <= i < |keys| ==> keys[i] in additions && InRange(keys[i], start, end)
  {
    forall i | 0 <= i < |keys| ensures keys[i] in additions && InRange(keys[i], start, end) {
      assert keys[i] in keys;
    }
  }

  class UnsavedFastIterator {
    const start: Option<Bytes>
    const end: Option<Bytes>
    const ascending: bool
    const additions: map<Bytes, FastNode>
    const removals: set<Bytes>
    var disk: seq<Entry>
    var keys: seq<Bytes>
    var nextUnsaved: nat
    var next: Option<Entry>

    ghost predicate Ready()
      reads this
    {
      && nextUnsaved <= |keys|
      && (forall i :: 0 <= i < |keys| ==> keys[i] in additions && InRange(keys[i], start, end))
      && (forall i :: 0 <= i < |disk| ==> InRange(disk[i].key, start, end))
      && (next.Some? ==> InRange(next.value.key, start, end))
    }

    /** What the iterator has not reached yet. */
    ghost function Ahead(): seq<Entry>
      requires Ready()
      reads this
    {
      Merge(disk, Additions(keys[nextUnsaved..], additions), removals, ascending)
    }

    /** The current entry and what comes after it. */
    ghost function Pending(): seq<Entry>
      requires Ready()
      reads this
    {
      (if next.Some? then [next.value] else []) + Ahead()
    }

    /** When there is no current entry, both sources are used up. */
    ghost predicate Settled()
      reads this
    {
      next.None? ==> disk == [] && nextUnsaved == |keys|
    }

    /** `NewUnsavedFastIterator` over the entries the disk holds in range, in order. */
    constructor (start: Option<Bytes>, end: Option<Bytes>, ascending: bool, disk: seq<Entry>,
                 additions: map<Bytes, FastNode>, removals: set<Bytes>)
      requires forall i :: 0 <= i < |disk| ==> InRange(disk[i].key, start, end)
      ensures this.start == start && this.end == end && Ready() && Settled()
      ensures SortedKeys(keys, ascending) && forall k :: k in keys <==> k in additions && InRange(k, start, end)
      ensures (forall i :: 0 <= i < |keys| ==> keys[i] in additions)
        && Pending() == Merge(disk, Additions(keys, additions), removals, ascending)
    {
      this.start, this.end, this.ascending := start, end, ascending;
      this.additions, this.removals := additions, removals;
      this.disk := disk;
      var sorted := KeysToSort(additions.Keys, start, end, ascending);
      KeysFit(sorted, additions, start, end);
      keys, nextUnsaved, next := sorted, 0, None;
      new;
      assert keys[0..] == keys;
      Next();
    }

    predicate Valid()
      reads this
    {
      !(start.Some? && end.Some? && !Less(start.value, end.value))
      && (disk != [] || nextUnsaved < |keys| || next.Some?)
    }

    /** Both sources have an entry: the unsaved one goes first unless the one on disk sorts before it. */
    method Compare()
      requires Ready() && disk != [] && nextUnsaved < |keys| && disk[0].key !in removals
      modifies this`disk, this`nextUnsaved, this`next
      ensures Ready() && next.Some? && old(Ahead()) == [next.value] + Ahead()
    {
      ghost var unsaved := Additions(keys[nextUnsaved..], additions);
      var nextKey := keys[nextUnsaved];
      assert unsaved[1..] == Additions(keys[nextUnsaved + 1..], additions);
      MergeCompares(disk, unsaved, removals, ascending);
      var isUnsavedNext := !Before(disk[0].key, nextKey, ascending);
      if isUnsavedNext {
        if disk[0].key == nextKey {
          disk := disk[1..];
        }
        next := Some(Entry(nextKey, additions[nextKey].value));
        nextUnsaved := nextUnsaved + 1;
        return;
      }
      next := Some(disk[0]);
      disk := disk[1..];
    }

    /** One step of the merge; removed entries from disk are skipped. */
    method Next()
      requires Ready()
      modifies this`disk, this`nextUnsaved, this`next
      ensures Ready() && Settled()
      ensures old(Ahead()) == [] ==> next.None?
      ensures old(Ahead()) != [] ==> next == Some(old(Ahead())[0]) && Ahead() == old(Ahead())[1..]
      ensures Pending() == old(Ahead())
      decreases |disk|
    {
      if disk != [] && nextUnsaved < |keys| {
        if disk[0].key in removals {
          disk := disk[1..];
          Next();
          return;
        }
        Compare();
        return;
      }
      if disk != [] {
        if disk[0].key in removals {
          disk := disk[1..];
          Next();
          return;
        }
        next := Some(disk[0]);
        disk := disk[1..];
        return;
      }
      if nextUnsaved < |keys| {
        ghost var unsaved := Additions(keys[nextUnsaved..], additions);
        var nextKey := keys[nextUnsaved];
        assert unsaved[1..] == Additions(keys[nextUnsaved + 1..], additions);
        next := Some(Entry(nextKey, additions[nextKey].value));
        nextUnsaved := nextUnsaved + 1;
        return;
      }
      next := None;
    }
  }

  lemma {:induction false} RangeNotEmpty(key: Bytes, start: Option<Bytes>, end: Option<Bytes>)
    requires InRange(key, start, end) && start.Some? && end.Some?
    ensures Less(start.value, end.value)
  {
    Trichotomy(start.value, key);
    if start.value != key {
      Transitive(start.value, key, end.value);
    }
  }

  /** The loop of every caller: while valid, take the current entry and move on. */
  method Drain(iter: UnsavedFastIterator) returns (out: seq<Entry>)
    requires iter.Ready() && iter.Settled()
    modifies iter
    ensures out == old(iter.Pending())
  {
    out := [];
    ghost var all := iter.Pending();
    while iter.Valid()
      invariant iter.Ready() && iter.Settled()
      invariant all == out + iter.Pending()
      decreases |iter.Pending()|
    {
      assert iter.next.Some?;
      Regroup(out, [iter.next.value], iter.Ahead());
      out := out + [iter.next.value];
      iter.Next();
    }
    if iter.next.Some? && iter.start.Some? && iter.end.Some? {
      RangeNotEmpty(iter.next.value.key, iter.start, iter.end);
    }
  }

  // ----- The iterator shows the working tree -----

  /** `s` lists the entries of `m` in range, in order. */
  ghost predicate Lists(s: seq<Entry>, m: map<Bytes, Bytes>, start: Option<Bytes>, end: Option<Bytes>,
                        ascending: bool) {
    && SortedEntries(s, ascending)
    && (forall e {:trigger e in s} :: e in s <==> e.key in m && m[e.key] == e.value && InRange(e.key, start, end))
  }

  function Values(fast: map<Bytes, FastNode>): map<Bytes, Bytes> {
    map k | k in fast :: fast[k].value
  }

  lemma {:induction false} UnsavedEntry(keys: seq<Bytes>, additions: map<Bytes, FastNode>, e: Entry)
    requires forall i :: 0 <= i < |keys| ==> keys[i] in additions
    ensures e in Additions(keys, additions) <==> e.key in keys && e.value == additions[e.key].value
    ensures HasKey(Additions(keys, additions), e.key) <==> e.key in keys
  {
    var s := Additions(keys, additions);
    if e.key in keys {
      var i :| 0 <= i < |keys| && keys[i] == e.key;
      assert s[i].key == e.key;
    }
  }

  /**
   * With an index on disk and an overlay as every legal run leaves them, the merge of the two lists exactly the
   * entries of the working tree in the range, each once, in the requested direction.
   */
  lemma {:induction false} IteratesWorkingTree(f: FastState, h: Store.History, disk: seq<Entry>, keys: seq<Bytes>,
                                              start: Option<Bytes>, end: Option<Bytes>, ascending: bool)
    requires FastInv(f, h) && !f.skip
    requires Lists(disk, Values(f.fast), start, end, ascending)
    requires SortedKeys(keys, ascending) && forall k :: k in keys <==> k in f.additions && InRange(k, start, end)
    ensures forall i :: 0 <= i < |keys| ==> keys[i] in f.additions
    ensures Lists(Merge(disk, Additions(keys, f.additions), f.removals, ascending), RootModel(f.tree.root), start,
                  end, ascending)
  {
    assert forall i :: 0 <= i < |keys| ==> keys[i] in keys;
    var unsaved := Additions(keys, f.additions);
    MergeSorted(disk, unsaved, f.removals, ascending);
    var m := RootModel(f.tree.root);
    forall e {:trigger e in Merge(disk, unsaved, f.removals, ascending)}
      ensures e in Merge(disk, unsaved, f.removals, ascending) <==>
        e.key in m && m[e.key] == e.value && InRange(e.key, start, end)
    {
      MergeShows(disk, unsaved, f.removals, ascending, e);
      UnsavedEntry(keys, f.additions, e);
    }
  }
}
