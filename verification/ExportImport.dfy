/**
 * Export streams the nodes of a tree in post-order; import rebuilds the tree from the stream with a stack, giving
 * every node a fresh nonce.
 */
module ExportImport {
  import opened Base
  import opened Trees
  import opened Store
  import opened Saving
  import opened Merkle
  import opened Traversal

  /** A node of the stream; an inner node has no value, and a missing key is possible in malformed streams. */
  datatype ExportNode = ExportNode(key: Option<Bytes>, value: Option<Bytes>, version: int, height: int)

  datatype ImportError =
    | NegativeVersion
    | NotEmpty
    | VersionTooGreat
    | InvalidNode
    | InvalidStructure(stackSize: int)

  function Export(x: Node): ExportNode
    requires x.nk.Some?
  {
    ExportNode(Some(x.key), if x.Leaf? then Some(x.value) else None, KeyOf(x).version, Height(x))
  }

  /** The stream of a tree, in the order of the export traversal. */
  function Exported(t: Node): seq<ExportNode>
    requires Saved(t)
  {
    if t.Leaf? then [Export(t)] else Exported(t.left) + Exported(t.right) + [Export(t)]
  }

  lemma {:induction false} ExportedIsPostOrder(t: Node)
    requires Saved(t)
    ensures |Exported(t)| == |Visit(EXPORT, t)|
    ensures forall i :: 0 <= i < |Exported(t)| ==>
      Visit(EXPORT, t)[i].nk.Some? && Exported(t)[i] == Export(Visit(EXPORT, t)[i])
  {
    ExportIsPostOrder(t);
    if t.Inner? {
      ExportedIsPostOrder(t.left);
      ExportedIsPostOrder(t.right);
      ExportIsPostOrder(t.left);
      ExportIsPostOrder(t.right);
    }
  }

  // ----- The importer -----

  /** An entry of the stack: a node built so far, or one that cannot be written. */
  datatype Item = Built(node: Node) | Malformed(height: int)

  function ItemHeight(item: Item): int {
    if item.Built? then Height(item.node) else item.height
  }

  datatype ImportState = ImportState(stack: seq<Item>, nonces: seq<int>, written: seq<Node>)

  /** `validate` before a node is written. */
  predicate Writable(item: Item) {
    item.Built? && Linked(item.node) && KeyOf(item.node).version > 0
  }

  function Bump(nonces: seq<int>, version: int): seq<int>
    requires 0 <= version < |nonces|
  {
    nonces[version := nonces[version] + 1]
  }

  /**
   * `Importer.Add`: push a leaf, combine two lower nodes, or push what cannot be written. A node of a version beyond
   * the import's is refused; a negative version has no counter.
   */
  function Added(st: ImportState, e: ExportNode): (r: Result<ImportState, ImportError>)
    ensures r.Ok? ==> |r.value.nonces| == |st.nonces|
  {
    if e.version >= |st.nonces| then Err(VersionTooGreat)
    else if e.version < 0 then Err(NegativeVersion)
    else AddedNode(st, e)
  }

  function AddedNode(st: ImportState, e: ExportNode): Result<ImportState, ImportError>
    requires 0 <= e.version < |st.nonces|
  {
    var n := |st.stack|;
    var nonces := Bump(st.nonces, e.version);
    var nk := Some(NodeKey(e.version, nonces[e.version] + 1));
    if e.height == 0 then
      var item := if e.key.Some? && e.value.Some? then Built(Leaf(nk, e.key.value, e.value.value)) else Malformed(0);
      Ok(ImportState(st.stack + [item], nonces, st.written))
    else if n >= 2 && ItemHeight(st.stack[n - 1]) < e.height && ItemHeight(st.stack[n - 2]) < e.height then
      var left, right := st.stack[n - 2], st.stack[n - 1];
      if !Writable(left) || !Writable(right) then Err(InvalidNode)
      else
        var item := if e.key.Some? && e.value.None?
          then Built(Inner(nk, e.key.value, e.height, Size(left.node) + Size(right.node), left.node, right.node))
          else Malformed(e.height);
        Ok(ImportState(st.stack[..n - 2] + [item], nonces, st.written + [left.node, right.node]))
    else
      Ok(ImportState(st.stack + [Malformed(e.height)], nonces, st.written))
  }

  function AddedAll(st: ImportState, nodes: seq<ExportNode>, version: int): (r: Result<ImportState, ImportError>)
    requires |st.nonces| == version + 1
    ensures r.Ok? ==> |r.value.nonces| == version + 1
  {
    if nodes == [] then Ok(st)
    else
      var front :- AddedAll(st, nodes[..|nodes| - 1], version);
      Added(front, nodes[|nodes| - 1])
  }

  lemma {:induction false} AddedOne(st: ImportState, nodes: seq<ExportNode>, e: ExportNode, version: int)
    requires |st.nonces| == version + 1
    ensures AddedAll(st, nodes + [e], version) ==
      if AddedAll(st, nodes, version).Ok? then Added(AddedAll(st, nodes, version).value, e)
        else AddedAll(st, nodes, version)
  {
    assert (nodes + [e])[..|nodes|] == nodes;
  }

  lemma {:induction false} AddedAppends(st: ImportState, a: seq<ExportNode>, b: seq<ExportNode>, version: int)
    requires |st.nonces| == version + 1
    ensures AddedAll(st, a, version).Ok? ==>
      AddedAll(st, a + b, version) == AddedAll(AddedAll(st, a, version).value, b, version)
  {
    if b == [] {
      assert a + b == a;
    } else {
      var front, last := b[..|b| - 1], b[|b| - 1];
      AddedAppends(st, a, front, version);
      assert a + b == (a + front) + [last];
      assert b == front + [last];
      AddedOne(st, a + front, last, version);
      if AddedAll(st, a, version).Ok? {
        AddedOne(AddedAll(st, a, version).value, front, last, version);
      }
    }
  }

  // ----- What the stream of a tree builds -----

  /** The versions of a tree lie in 1..version. */
  predicate Versioned(t: Node, version: int) {
    t.nk.Some? && 1 <= KeyOf(t).version <= version
    && (t.Inner? ==> Versioned(t.left, version) && Versioned(t.right, version))
  }

  datatype Numbered = Numbered(node: Node, nonces: seq<int>)

  /** The tree with new nonces, counted per version in post-order, from 2 on. */
  function Renumber(t: Node, nonces: seq<int>): (r: Numbered)
    requires Versioned(t, |nonces| - 1)
    ensures |r.nonces| == |nonces| && Linked(r.node)
    ensures KeyOf(r.node).version == KeyOf(t).version
    decreases t
  {
    var v := KeyOf(t).version;
    if t.Leaf? then
      var n := Bump(nonces, v);
      Numbered(Leaf(Some(NodeKey(v, n[v] + 1)), t.key, t.value), n)
    else
      var l := Renumber(t.left, nonces);
      var r := Renumber(t.right, l.nonces);
      var n := Bump(r.nonces, v);
      Numbered(Inner(Some(NodeKey(v, n[v] + 1)), t.key, t.height, Size(l.node) + Size(r.node), l.node, r.node), n)
  }

  /** The nodes below a root in the order they are written. */
  function WrittenBelow(t: Node): seq<Node> {
    if t.Leaf? then [] else WrittenBelow(t.left) + WrittenBelow(t.right) + [t.left, t.right]
  }

  lemma {:induction false} SavedWhenVersioned(t: Node, version: int)
    requires Versioned(t, version)
    ensures Saved(t)
  {
    if t.Inner? {
      SavedWhenVersioned(t.left, version);
      SavedWhenVersioned(t.right, version);
    }
  }

  lemma {:induction false} RenumberKeepsShape(t: Node, nonces: seq<int>)
    requires Versioned(t, |nonces| - 1) && Measured(t)
    ensures
      var r := Renumber(t, nonces).node;
      Height(r) == Height(t) && Size(r) == Size(t) && Measured(r) && Saved(r) && MinKey(r) == MinKey(t)
        && MaxKey(r) == MaxKey(t)
      && (Ordered(t) ==> Ordered(r)) && Content(r, 0) == Content(t, 0)
  {
    if t.Inner? {
      var l := Renumber(t.left, nonces);
      RenumberKeepsShape(t.left, nonces);
      RenumberKeepsShape(t.right, l.nonces);
    }
  }

  lemma {:induction false} RenumberTapers(t: Node, nonces: seq<int>)
    requires Versioned(t, |nonces| - 1) && Tapering(t)
    ensures var r := Renumber(t, nonces).node; Height(r) == Height(t) && Tapering(r) && Saved(r)
  {
    if t.Inner? {
      var l := Renumber(t.left, nonces);
      RenumberTapers(t.left, nonces);
      RenumberTapers(t.right, l.nonces);
    }
  }

  /** Adding the stream of a tree pushes exactly that tree, with new nonces, and writes everything below it. */
  lemma {:induction false} StreamBuilds(st: ImportState, t: Node, version: int)
    requires |st.nonces| == version + 1 && Versioned(t, version) && Tapering(t)
    ensures Saved(t)
    ensures
      var r := Renumber(t, st.nonces);
      AddedAll(st, Exported(t), version) ==
        Ok(ImportState(st.stack + [Built(r.node)], r.nonces, st.written + WrittenBelow(r.node)))
    decreases t
  {
    SavedWhenVersioned(t, version);
    if t.Leaf? {
      assert Exported(t) == [] + [Export(t)];
      AddedOne(st, [], Export(t), version);
      assert st.written + [] == st.written;
    } else {
      var l := Renumber(t.left, st.nonces);
      var r := Renumber(t.right, l.nonces);
      var st1 := ImportState(st.stack + [Built(l.node)], l.nonces, st.written + WrittenBelow(l.node));
      var st2 := ImportState(st1.stack + [Built(r.node)], r.nonces, st1.written + WrittenBelow(r.node));
      SavedWhenVersioned(t.left, version);
      SavedWhenVersioned(t.right, version);
      StreamBuilds(st, t.left, version);
      StreamBuilds(st1, t.right, version);
      AddedAppends(st, Exported(t.left), Exported(t.right), version);
      AddedOne(st, Exported(t.left) + Exported(t.right), Export(t), version);
      ParentBuilt(st, t, version, l, r);
      Regroup(st.written, WrittenBelow(l.node), WrittenBelow(r.node));
      Regroup(st.written, WrittenBelow(l.node) + WrittenBelow(r.node), [l.node, r.node]);
    }
  }

  lemma {:induction false} CombineTop(base: seq<Item>, l: Node, r: Node, nonces: seq<int>, written: seq<Node>,
                                      e: ExportNode)
    requires 0 <= e.version < |nonces| && e.height != 0 && e.key.Some? && e.value.None?
    requires Height(l) < e.height && Height(r) < e.height && Writable(Built(l)) && Writable(Built(r))
    ensures
      var n := Bump(nonces, e.version);
      var node := Inner(Some(NodeKey(e.version, n[e.version] + 1)), e.key.value, e.height, Size(l) + Size(r), l, r);
      Added(ImportState(base + [Built(l)] + [Built(r)], nonces, written), e) ==
        Ok(ImportState(base + [Built(node)], n, written + [l, r]))
  {
    var stack := base + [Built(l)] + [Built(r)];
    assert stack[..|stack| - 2] == base;
  }

  lemma {:induction false} ChildrenFit(t: Node, nonces: seq<int>, l: Numbered, r: Numbered)
    requires Versioned(t, |nonces| - 1) && Tapering(t) && t.Inner?
    requires l == Renumber(t.left, nonces) && r == Renumber(t.right, l.nonces)
    ensures Height(l.node) < t.height && Height(r.node) < t.height && t.height != 0
    ensures Writable(Built(l.node)) && Writable(Built(r.node))
  {
    RenumberTapers(t.left, nonces);
    RenumberTapers(t.right, l.nonces);
    TaperingBounds(t.left);
  }

  lemma {:induction false} ParentBuilt(st: ImportState, t: Node, version: int, l: Numbered, r: Numbered)
    requires |st.nonces| == version + 1 && Versioned(t, version) && Tapering(t) && t.Inner?
    requires l == Renumber(t.left, st.nonces) && r == Renumber(t.right, l.nonces)
    ensures
      var st1 := ImportState(st.stack + [Built(l.node)], l.nonces, st.written + WrittenBelow(l.node));
      var st2 := ImportState(st1.stack + [Built(r.node)], r.nonces, st1.written + WrittenBelow(r.node));
      Added(st2, Export(t)) ==
        Ok(ImportState(st.stack + [Built(Renumber(t, st.nonces).node)], Renumber(t, st.nonces).nonces,
                       st2.written + [l.node, r.node]))
  {
    ChildrenFit(t, st.nonces, l, r);
    CombineTop(st.stack, l.node, r.node, r.nonces, st.written + WrittenBelow(l.node) + WrittenBelow(r.node), Export(t));
  }

  // ----- New node keys -----

  /** Nonces only grow, and a new node's nonce lies in the range its version's counter went through. */
  lemma {:induction false} RenumberGrows(t: Node, nonces: seq<int>, v: int)
    requires Versioned(t, |nonces| - 1) && 0 <= v < |nonces|
    ensures nonces[v] <= Renumber(t, nonces).nonces[v]
  {
    if t.Inner? {
      var l := Renumber(t.left, nonces);
      RenumberGrows(t.left, nonces, v);
      RenumberGrows(t.right, l.nonces, v);
    }
  }

  predicate NumberedIn(x: Node, before: seq<int>, after: seq<int>)
    requires |before| == |after|
  {
    x.nk.Some? && 0 <= KeyOf(x).version < |before|
    && before[KeyOf(x).version] + 1 < KeyOf(x).nonce <= after[KeyOf(x).version] + 1
  }

  /** A renumbered inner node: the left subtree, then the right one, then the node itself. */
  lemma {:induction false} RenumberParts(t: Node, nonces: seq<int>) returns (l: Numbered, r: Numbered, a: Numbered)
    requires Versioned(t, |nonces| - 1) && t.Inner?
    ensures l == Renumber(t.left, nonces) && r == Renumber(t.right, l.nonces) && a == Renumber(t, nonces)
    ensures a.nonces == Bump(r.nonces, KeyOf(t).version)
    ensures a.node.nk == Some(NodeKey(KeyOf(t).version, r.nonces[KeyOf(t).version] + 2))
    ensures Nodes(a.node) == {a.node} + Nodes(l.node) + Nodes(r.node)
  {
    l := Renumber(t.left, nonces);
    r := Renumber(t.right, l.nonces);
    a := Renumber(t, nonces);
  }

  lemma {:induction false} Widen(x: Node, a: seq<int>, b: seq<int>, c: seq<int>, d: seq<int>)
    requires |a| == |b| == |c| == |d| && NumberedIn(x, b, c)
    requires a[KeyOf(x).version] <= b[KeyOf(x).version] && c[KeyOf(x).version] <= d[KeyOf(x).version]
    ensures NumberedIn(x, a, d)
  {
  }

  lemma {:induction false} RenumberedRoot(t: Node, nonces: seq<int>, a: Numbered)
    requires Versioned(t, |nonces| - 1) && a == Renumber(t, nonces)
    ensures NumberedIn(a.node, nonces, a.nonces) && KeyOf(a.node).version >= 1
  {
    if t.Inner? {
      var l := Renumber(t.left, nonces);
      RenumberGrows(t.left, nonces, KeyOf(t).version);
      RenumberGrows(t.right, l.nonces, KeyOf(t).version);
    }
  }

  lemma {:induction false} RangeFromLeft(t: Node, nonces: seq<int>, x: Node, l: Numbered, r: Numbered, a: Numbered)
    requires Versioned(t, |nonces| - 1) && t.Inner? && l == Renumber(t.left, nonces) && r == Renumber(t.right, l.nonces)
    requires a.nonces == Bump(r.nonces, KeyOf(t).version) && NumberedIn(x, nonces, l.nonces)
    ensures NumberedIn(x, nonces, a.nonces)
  {
    RenumberGrows(t.right, l.nonces, KeyOf(x).version);
    Widen(x, nonces, nonces, l.nonces, a.nonces);
  }

  lemma {:induction false} RangeFromRight(t: Node, nonces: seq<int>, x: Node, l: Numbered, r: Numbered, a: Numbered)
    requires Versioned(t, |nonces| - 1) && t.Inner? && l == Renumber(t.left, nonces) && r == Renumber(t.right, l.nonces)
    requires a.nonces == Bump(r.nonces, KeyOf(t).version) && NumberedIn(x, l.nonces, r.nonces)
    ensures NumberedIn(x, nonces, a.nonces)
  {
    RenumberGrows(t.left, nonces, KeyOf(x).version);
    Widen(x, nonces, l.nonces, r.nonces, a.nonces);
  }

  lemma {:induction false} RenumberRange(t: Node, nonces: seq<int>, x: Node)
    requires Versioned(t, |nonces| - 1) && x in Nodes(Renumber(t, nonces).node)
    ensures NumberedIn(x, nonces, Renumber(t, nonces).nonces) && KeyOf(x).version >= 1
  {
    if x == Renumber(t, nonces).node {
      RenumberedRoot(t, nonces, Renumber(t, nonces));
    } else {
      var l, r, a := RenumberParts(t, nonces);
      if x in Nodes(l.node) {
        RenumberRange(t.left, nonces, x);
        RangeFromLeft(t, nonces, x, l, r, a);
      } else {
        RenumberRange(t.right, l.nonces, x);
        RangeFromRight(t, nonces, x, l, r, a);
      }
    }
  }

  /** Where a node below a renumbered inner node is, read off its nonce. */
  lemma {:induction false} RenumberSide(t: Node, nonces: seq<int>, x: Node, l: Numbered, r: Numbered)
    requires Versioned(t, |nonces| - 1) && t.Inner? && l == Renumber(t.left, nonces) && r == Renumber(t.right, l.nonces)
    requires x in Nodes(l.node) || x in Nodes(r.node)
    ensures x.nk.Some? && 1 <= KeyOf(x).version < |nonces| && KeyOf(x).nonce <= r.nonces[KeyOf(x).version] + 1
    ensures x in Nodes(l.node) <==> KeyOf(x).nonce <= l.nonces[KeyOf(x).version] + 1
    ensures x in Nodes(r.node) <==> KeyOf(x).nonce > l.nonces[KeyOf(x).version] + 1
  {
    if x in Nodes(l.node) {
      RenumberRange(t.left, nonces, x);
      RenumberGrows(t.right, l.nonces, KeyOf(x).version);
    }
    if x in Nodes(r.node) {
      RenumberRange(t.right, l.nonces, x);
    }
  }

  /** No node key is given out twice. */
  lemma {:induction false} RenumberDistinct(t: Node, nonces: seq<int>, x: Node, y: Node)
    requires Versioned(t, |nonces| - 1) && x in Nodes(Renumber(t, nonces).node) && y in Nodes(Renumber(t, nonces).node)
    requires x.nk == y.nk
    ensures x == y
  {
    if t.Inner? {
      var l, r, a := RenumberParts(t, nonces);
      if x != a.node {
        RenumberSide(t, nonces, x, l, r);
      }
      if y != a.node {
        RenumberSide(t, nonces, y, l, r);
      }
      if x != a.node && y != a.node {
        if x in Nodes(l.node) {
          RenumberDistinct(t.left, nonces, x, y);
        } else {
          RenumberDistinct(t.right, l.nonces, x, y);
        }
      }
    }
  }

  lemma {:induction false} WrittenIsBelow(t: Node, x: Node)
    ensures x in WrittenBelow(t) <==> x in ProperNodes(t)
  {
    if t.Inner? {
      WrittenIsBelow(t.left, x);
      WrittenIsBelow(t.right, x);
    }
  }

  // ----- Commit -----

  /** What a committed import has written: every node below the root, the root at nonce 1, and a root record. */
  function CommitOps(st: ImportState, version: int): Result<seq<BatchOp>, ImportError>
    requires AllLinked(st.written)
  {
    if |st.stack| == 0 then Ok(PutAll(st.written) + [Put(RootKey(version), EmptyRoot)])
    else if |st.stack| > 1 then Err(InvalidStructure(|st.stack|))
    else if !Writable(st.stack[0]) then Err(InvalidNode)
    else
      var node := st.stack[0].node;
      var nk := NodeKey(KeyOf(node).version, 1);
      var ops := PutAll(st.written) + [Put(nk, Stored(RecordOf(Rekey(node, nk))))];
      Ok(if nk.version < version then ops + [Put(RootKey(version), Reference(nk))] else ops)
  }

  function Zeros(n: nat): (s: seq<int>)
    ensures |s| == n && forall i :: 0 <= i < n ==> s[i] == 0
  {
    seq(n, _ => 0)
  }

  function ImportStart(version: nat): ImportState {
    ImportState([], Zeros(version + 1), [])
  }

  /** The imported tree: the exported one with nonces from 2 on, and 1 for the root. */
  function Imported(t: Node, version: nat): Node
    requires Versioned(t, version)
  {
    Rekey(Renumber(t, Zeros(version + 1)).node, NodeKey(KeyOf(t).version, 1))
  }

  lemma {:induction false} ImportedNode(t: Node, version: nat, x: Node)
    requires Versioned(t, version) && x in ProperNodes(Renumber(t, Zeros(version + 1)).node)
    ensures Saved(Renumber(t, Zeros(version + 1)).node) ==> Saved(x)
    ensures x.nk.Some? && KeyOf(x).nonce >= 2 && 1 <= KeyOf(x).version <= version
    ensures x in Nodes(Renumber(t, Zeros(version + 1)).node)
  {
    var r := Renumber(t, Zeros(version + 1)).node;
    assert x in Nodes(r);
    RenumberRange(t, Zeros(version + 1), x);
    if Saved(r) {
      NodesAreSaved(r, x);
    }
  }

  lemma {:induction false} WrittenLinked(t: Node, version: nat)
    requires Versioned(t, version) && Tapering(t)
    ensures AllLinked(WrittenBelow(Renumber(t, Zeros(version + 1)).node))
  {
    var r := Renumber(t, Zeros(version + 1)).node;
    RenumberTapers(t, Zeros(version + 1));
    forall i | 0 <= i < |WrittenBelow(r)| ensures Linked(WrittenBelow(r)[i]) {
      WrittenIsBelow(r, WrittenBelow(r)[i]);
      ImportedNode(t, version, WrittenBelow(r)[i]);
    }
  }

  /** The store after the writes below the root. */
  lemma {:induction false} BelowStored(t: Node, version: nat, x: Node)
    requires Versioned(t, version) && Tapering(t) && x in ProperNodes(Renumber(t, Zeros(version + 1)).node)
    requires AllLinked(WrittenBelow(Renumber(t, Zeros(version + 1)).node))
    ensures Saved(x) && KeyOf(x).nonce >= 2
    ensures
      var db := Apply(map[], PutAll(WrittenBelow(Renumber(t, Zeros(version + 1)).node)));
      KeyOf(x) in db && db[KeyOf(x)] == Stored(RecordOf(x))
  {
    var n := Zeros(version + 1);
    var r := Renumber(t, n).node;
    RenumberTapers(t, n);
    ImportedNode(t, version, x);
    WrittenIsBelow(r, x);
    forall y {:trigger y in WrittenBelow(r)} | y in WrittenBelow(r) && x.nk == y.nk ensures x == y {
      WrittenIsBelow(r, y);
      ImportedNode(t, version, y);
      RenumberDistinct(t, n, x, y);
    }
    PutAllStores(map[], WrittenBelow(r), x);
  }

  lemma {:induction false} ChildStored(db: Db, r: Node, child: Node)
    requires Saved(r) && r.Inner? && (child == r.left || child == r.right)
    requires forall x {:trigger x in ProperNodes(r)} :: x in ProperNodes(r) ==>
      Saved(x) && KeyOf(x) in db && db[KeyOf(x)] == Stored(RecordOf(x)) && KeyOf(x).nonce != 0
    ensures Saved(child) && StoredAll(db, child)
  {
    forall x {:trigger x in Nodes(child)} | x in Nodes(child) && Saved(x)
      ensures KeyOf(x) in db && db[KeyOf(x)] == Stored(RecordOf(x)) && KeyOf(x).nonce != 0
    {
      assert x in ProperNodes(r);
    }
    StoredAllNodes(db, child);
  }

  /** A node below the root is in every store that keeps what was written below the root. */
  lemma {:induction false} BelowKept(t: Node, version: nat, r: Node, below: Db, db: Db, x: Node)
    requires Versioned(t, version) && Tapering(t) && r == Renumber(t, Zeros(version + 1)).node
    requires AllLinked(WrittenBelow(r)) && below == Apply(map[], PutAll(WrittenBelow(r)))
    requires forall k :: k in below && k.nonce >= 2 ==> k in db && db[k] == below[k]
    requires x in ProperNodes(r)
    ensures Saved(x) && KeyOf(x) in db && db[KeyOf(x)] == Stored(RecordOf(x)) && KeyOf(x).nonce != 0
  {
    BelowStored(t, version, x);
  }

  /** The store an import leaves, below its root. */
  lemma {:induction false} ImportedBelow(t: Node, version: nat, r: Node, below: Db, db: Db)
    requires Versioned(t, version) && Tapering(t) && r == Renumber(t, Zeros(version + 1)).node
    requires AllLinked(WrittenBelow(r)) && below == Apply(map[], PutAll(WrittenBelow(r)))
    requires forall k :: k in below && k.nonce >= 2 ==> k in db && db[k] == below[k]
    ensures Saved(r) && Tapering(r) && StoredBelow(db, r)
  {
    RenumberTapers(t, Zeros(version + 1));
    forall x {:trigger x in ProperNodes(r)} | x in ProperNodes(r)
      ensures Saved(x) && KeyOf(x) in db && db[KeyOf(x)] == Stored(RecordOf(x)) && KeyOf(x).nonce != 0
    {
      BelowKept(t, version, r, below, db, x);
    }
    if r.Inner? {
      ChildStored(db, r, r.left);
      ChildStored(db, r, r.right);
    }
  }

  function CommittedStore(below: Db, node: Node, version: int): Db
    requires Linked(node)
  {
    var nk := NodeKey(KeyOf(node).version, 1);
    var db := below[nk := Stored(RecordOf(Rekey(node, nk)))];
    if nk.version < version then db[RootKey(version) := Reference(nk)] else db
  }

  lemma {:induction false} CommitEffect(st: ImportState, version: int, node: Node)
    requires AllLinked(st.written) && st.stack == [Built(node)] && Writable(Built(node))
    ensures CommitOps(st, version).Ok?
    ensures Apply(map[], CommitOps(st, version).value) ==
      CommittedStore(Apply(map[], PutAll(st.written)), node, version)
  {
    var nk := NodeKey(KeyOf(node).version, 1);
    var put := Put(nk, Stored(RecordOf(Rekey(node, nk))));
    ApplyOne(map[], PutAll(st.written), put);
    ApplyOne(map[], PutAll(st.written) + [put], Put(RootKey(version), Reference(nk)));
  }

  lemma {:induction false} CommittedRoot(below: Db, node: Node, version: int)
    requires Linked(node) && KeyOf(node).version <= version
    ensures GetRoot(CommittedStore(below, node, version), version) == Ok(Some(NodeKey(KeyOf(node).version, 1)))
  {
  }

  /** A committed tree reads back, its root at nonce 1. */
  lemma {:induction false} CommittedReads(below: Db, r: Node, version: int, db: Db)
    requires Saved(r) && Tapering(r) && Linked(r) && KeyOf(r).version <= version
    requires db == CommittedStore(below, r, version) && StoredBelow(db, r)
    ensures ReadVersion(db, version) == Ok(Some(Rekey(r, NodeKey(KeyOf(r).version, 1))))
  {
    CommittedRoot(below, r, version);
    ReadsBack(db, r, NodeKey(KeyOf(r).version, 1));
  }

  lemma {:induction false} CommittedKeeps(below: Db, r: Node, version: int, k: NodeKey)
    requires Linked(r) && k in below && k.nonce >= 2
    ensures k in CommittedStore(below, r, version) && CommittedStore(below, r, version)[k] == below[k]
  {
  }

  lemma {:induction false} ImportedReads(t: Node, version: nat, r: Node, below: Db, db: Db)
    requires Versioned(t, version) && Tapering(t) && r == Renumber(t, Zeros(version + 1)).node
    requires AllLinked(WrittenBelow(r)) && below == Apply(map[], PutAll(WrittenBelow(r)))
    requires db == CommittedStore(below, r, version)
    ensures ReadVersion(db, version) == Ok(Some(Imported(t, version)))
  {
    forall k | k in below && k.nonce >= 2 ensures k in db && db[k] == below[k] {
      CommittedKeeps(below, r, version, k);
    }
    ImportedBelow(t, version, r, below, db);
    CommittedReads(below, r, version, db);
  }

  lemma {:induction false} ImportedKeys(t: Node, version: nat, x: Node, y: Node)
    requires Versioned(t, version) && Tapering(t) && x in Nodes(Imported(t, version))
    requires y in Nodes(Imported(t, version))
    ensures KeyOf(Imported(t, version)) == NodeKey(KeyOf(t).version, 1)
    ensures x.nk.Some? && (x != Imported(t, version) ==> KeyOf(x).nonce >= 2)
    ensures x.nk == y.nk ==> x == y
  {
    var n := Zeros(version + 1);
    var r := Renumber(t, n).node;
    if x in ProperNodes(r) {
      ImportedNode(t, version, x);
    }
    if y in ProperNodes(r) {
      ImportedNode(t, version, y);
    }
    if x.nk == y.nk && x in ProperNodes(r) && y in ProperNodes(r) {
      RenumberDistinct(t, n, x, y);
    }
  }

  lemma {:induction false} ImportEnds(t: Node, version: nat)
    requires Versioned(t, version) && Tapering(t)
    ensures Saved(t)
    ensures AllLinked(WrittenBelow(Renumber(t, Zeros(version + 1)).node))
    ensures
      var r := Renumber(t, Zeros(version + 1));
      AddedAll(ImportStart(version), Exported(t), version) ==
        Ok(ImportState([Built(r.node)], r.nonces, WrittenBelow(r.node)))
  {
    var start := ImportStart(version);
    StreamBuilds(start, t, version);
    var r := Renumber(t, start.nonces).node;
    assert [] + [Built(r)] == [Built(r)] && [] + WrittenBelow(r) == WrittenBelow(r);
    WrittenLinked(t, version);
  }

  lemma {:induction false} ImportedContent(sha: Digest, t: Node, version: nat)
    requires Versioned(t, version) && Avl(t)
    ensures Content(Imported(t, version), 0) == Content(t, 0) && Hash(sha, Imported(t, version), 0) == Hash(sha, t, 0)
    ensures Ordered(Imported(t, version))
  {
    RenumberKeepsShape(t, Zeros(version + 1));
    HashIgnoresNonces(sha, Imported(t, version), t, 0, 0);
  }

  /** The imported tree differs from the exported one in its nonces only; they are distinct, 1 for the root alone. */
  lemma {:induction false} ImportedIsSame(sha: Digest, t: Node, version: nat)
    requires Versioned(t, version) && Avl(t)
    ensures
      var i := Imported(t, version);
      && Content(i, 0) == Content(t, 0) && Hash(sha, i, 0) == Hash(sha, t, 0) && Ordered(i)
      && KeyOf(i).nonce == 1 && DistinctKeys(Nodes(i))
      && forall x {:trigger x in ProperNodes(i)} :: x in ProperNodes(i) ==> x.nk.Some? && KeyOf(x).nonce >= 2
  {
    ImportedContent(sha, t, version);
    MeasuredTapers(t);
    var i := Imported(t, version);
    forall x, y {:trigger x in Nodes(i), y in Nodes(i)} | x in Nodes(i) && y in Nodes(i) && x.nk == y.nk
      ensures x == y
    {
      ImportedKeys(t, version, x, y);
    }
    forall x {:trigger x in ProperNodes(i)} | x in ProperNodes(i) ensures x.nk.Some? && KeyOf(x).nonce >= 2 {
      ImportedNode(t, version, x);
    }
  }

  lemma {:induction false} CommitReads(t: Node, version: nat, r: Numbered, st: ImportState)
    requires Versioned(t, version) && Tapering(t) && r == Renumber(t, Zeros(version + 1))
    requires st == ImportState([Built(r.node)], r.nonces, WrittenBelow(r.node)) && AllLinked(st.written)
    ensures CommitOps(st, version).Ok?
    ensures ReadVersion(Apply(map[], CommitOps(st, version).value), version) == Ok(Some(Imported(t, version)))
  {
    CommitEffect(st, version, r.node);
    ImportedReads(t, version, r.node, Apply(map[], PutAll(st.written)), Apply(map[], CommitOps(st, version).value));
  }

  lemma {:induction false} ImportCommits(t: Node, version: nat, st: Result<ImportState, ImportError>)
    requires Versioned(t, version) && Tapering(t) && Saved(t)
    requires st == AddedAll(ImportStart(version), Exported(t), version)
    ensures st.Ok? && |st.value.stack| == 1 && AllLinked(st.value.written) && CommitOps(st.value, version).Ok?
    ensures ReadVersion(Apply(map[], CommitOps(st.value, version).value), version) == Ok(Some(Imported(t, version)))
  {
    ImportEnds(t, version);
    CommitReads(t, version, Renumber(t, Zeros(version + 1)), st.value);
  }

  /**
   * Importing the export of a well-formed tree into an empty store succeeds with a single tree on the stack, and the
   * version reads back as that tree: same shape, keys, values, versions, heights, sizes and root hash.
   */
  lemma {:induction false} ImportRestores(sha: Digest, t: Node, version: nat)
    requires Versioned(t, version) && Avl(t)
    ensures Saved(t)
    ensures
      var st := AddedAll(ImportStart(version), Exported(t), version);
      && st.Ok? && |st.value.stack| == 1 && AllLinked(st.value.written) && CommitOps(st.value, version).Ok?
      && ReadVersion(Apply(map[], CommitOps(st.value, version).value), version) == Ok(Some(Imported(t, version)))
    ensures Content(Imported(t, version), 0) == Content(t, 0) && Hash(sha, Imported(t, version), 0) == Hash(sha, t, 0)
  {
    SavedWhenVersioned(t, version);
    MeasuredTapers(t);
    ImportCommits(t, version, AddedAll(ImportStart(version), Exported(t), version));
    ImportedContent(sha, t, version);
  }

  /** The empty tree exports nothing, and importing nothing gives the empty tree. */
  lemma {:induction false} ImportNothing(version: nat)
    ensures
      var st := ImportStart(version);
      CommitOps(st, version).Ok? && ReadVersion(Apply(map[], CommitOps(st, version).value), version) == Ok(None)
  {
    ApplyOne(map[], [], Put(RootKey(version), EmptyRoot));
  }

  // ----- Which streams are accepted -----

  /** The stream is the export of `t`, whose versions lie in 1..version and whose heights fall. */
  ghost predicate StreamOf(nodes: seq<ExportNode>, version: int, t: Node) {
    Versioned(t, version) && Tapering(t) && Saved(t) && Exported(t) == nodes
  }

  /** A built entry of the stack: a leaf, or an inner node over two nodes that could be written. */
  predicate Sane(item: Item, version: int) {
    item.Built? ==>
      var x := item.node;
      && x.nk.Some? && 0 <= KeyOf(x).version <= version && Tapering(x)
      && (x.Inner? ==> Versioned(x.left, version) && Versioned(x.right, version))
  }

  predicate Whole(item: Item, version: int) {
    item.Built? && Versioned(item.node, version) && Tapering(item.node)
  }

  lemma {:induction false} WritableIsWhole(item: Item, version: int)
    requires Sane(item, version) && Writable(item)
    ensures Whole(item, version) && Saved(item.node)
  {
    SavedWhenVersioned(item.node, version);
  }

  predicate AllSane(stack: seq<Item>, version: int) {
    forall i :: 0 <= i < |stack| ==> Sane(stack[i], version)
  }

  predicate AllWhole(stack: seq<Item>, version: int) {
    forall i :: 0 <= i < |stack| ==> Whole(stack[i], version)
  }

  /** The streams of the entries, one after another. */
  function Streams(stack: seq<Item>, version: int): seq<ExportNode>
    requires AllWhole(stack, version)
  {
    if stack == [] then []
    else
      var last := stack[|stack| - 1].node;
      SavedWhenVersioned(last, version);
      Streams(stack[..|stack| - 1], version) + Exported(last)
  }

  lemma {:induction false} StreamsAppend(stack: seq<Item>, x: Node, version: int)
    requires AllWhole(stack, version) && Whole(Built(x), version)
    ensures Saved(x) && AllWhole(stack + [Built(x)], version)
    ensures Streams(stack + [Built(x)], version) == Streams(stack, version) + Exported(x)
  {
    SavedWhenVersioned(x, version);
    assert (stack + [Built(x)])[..|stack|] == stack;
  }

  /** Every entry of the stack is sane, what was written is linked, and whole entries account for the stream. */
  ghost predicate Accounted(st: ImportState, nodes: seq<ExportNode>, version: int) {
    && AllSane(st.stack, version) && AllLinked(st.written)
    && (AllWhole(st.stack, version) ==> Streams(st.stack, version) == nodes)
  }

  lemma {:induction false} PrefixWhole(stack: seq<Item>, item: Item, version: int)
    requires AllWhole(stack + [item], version)
    ensures AllWhole(stack, version) && Whole(item, version)
  {
    assert (stack + [item])[|stack|] == item;
    forall i | 0 <= i < |stack| ensures Whole(stack[i], version) {
      assert (stack + [item])[i] == stack[i];
    }
  }

  lemma {:induction false} PushAccounted(st: ImportState, nodes: seq<ExportNode>, e: ExportNode, version: int,
                                         item: Item, n: ImportState)
    requires Accounted(st, nodes, version) && n.stack == st.stack + [item] && n.written == st.written
    requires Sane(item, version) && (item.Built? ==> item.node.Leaf? && Export(item.node) == e)
    ensures Accounted(n, nodes + [e], version)
  {
    if AllWhole(n.stack, version) {
      PrefixWhole(st.stack, item, version);
      StreamsAppend(st.stack, item.node, version);
    }
  }

  lemma {:induction false} PairStreams(base: seq<Item>, l: Node, r: Node, version: int)
    requires AllWhole(base, version) && Whole(Built(l), version) && Whole(Built(r), version)
    ensures Saved(l) && Saved(r) && AllWhole(base + [Built(l)] + [Built(r)], version)
    ensures Streams(base + [Built(l)] + [Built(r)], version) == Streams(base, version) + (Exported(l) + Exported(r))
  {
    StreamsAppend(base, l, version);
    StreamsAppend(base + [Built(l)], r, version);
    Regroup(Streams(base, version), Exported(l), Exported(r));
  }

  lemma {:induction false} CombineAccounted(base: seq<Item>, l: Node, r: Node, nodes: seq<ExportNode>, e: ExportNode,
                                            version: int, item: Item)
    requires AllSane(base, version) && Whole(Built(l), version) && Whole(Built(r), version)
    requires AllWhole(base + [Built(l)] + [Built(r)], version) ==>
      Streams(base + [Built(l)] + [Built(r)], version) == nodes
    requires Sane(item, version)
    requires item.Built? ==> item.node.Inner? && item.node.left == l && item.node.right == r && Export(item.node) == e
    ensures AllWhole(base + [item], version) ==> Streams(base + [item], version) == nodes + [e]
  {
    if AllWhole(base + [item], version) {
      PrefixWhole(base, item, version);
      PairStreams(base, l, r, version);
      StreamsAppend(base, item.node, version);
      Regroup(Streams(base, version), Exported(l) + Exported(r), [e]);
    }
  }

  lemma {:induction false} CombinedState(st: ImportState, nodes: seq<ExportNode>, e: ExportNode, version: int,
                                         base: seq<Item>, l: Node, r: Node, n: ImportState)
    requires |st.nonces| == version + 1 && Accounted(st, nodes, version) && 0 <= e.version <= version
    requires st.stack == base + [Built(l)] + [Built(r)] && Writable(Built(l)) && Writable(Built(r))
    requires e.height != 0 && Height(l) < e.height && Height(r) < e.height && Added(st, e) == Ok(n)
    ensures Accounted(n, nodes + [e], version)
  {
    var k := |base|;
    assert st.stack[k] == Built(l) && st.stack[k + 1] == Built(r) && st.stack[..k] == base;
    assert Sane(st.stack[k], version) && Sane(st.stack[k + 1], version);
    WritableIsWhole(Built(l), version);
    WritableIsWhole(Built(r), version);
    assert AllSane(base, version) by {
      forall i | 0 <= i < |base| ensures Sane(base[i], version) {
        assert st.stack[i] == base[i];
      }
    }
    var item := n.stack[k];
    assert n.stack == base + [item] && n.written == st.written + [l, r];
    CombineAccounted(base, l, r, nodes, e, version, item);
  }

  lemma {:induction false} AddAccounted(st: ImportState, nodes: seq<ExportNode>, e: ExportNode, version: int,
                                        n: ImportState)
    requires |st.nonces| == version + 1 && Accounted(st, nodes, version) && Added(st, e) == Ok(n)
    ensures Accounted(n, nodes + [e], version)
  {
    var k := |st.stack|;
    if e.height != 0 && k >= 2 && ItemHeight(st.stack[k - 1]) < e.height && ItemHeight(st.stack[k - 2]) < e.height {
      var base, l, r := st.stack[..k - 2], st.stack[k - 2].node, st.stack[k - 1].node;
      assert st.stack == base + [Built(l)] + [Built(r)];
      CombinedState(st, nodes, e, version, base, l, r, n);
    } else {
      PushAccounted(st, nodes, e, version, n.stack[k], n);
    }
  }

  /** Nothing of the stream is lost on the way: it is what the entries of the stack export. */
  lemma {:induction false} StreamAccounted(nodes: seq<ExportNode>, version: nat, st: ImportState)
    requires AddedAll(ImportStart(version), nodes, version) == Ok(st)
    ensures Accounted(st, nodes, version)
  {
    if nodes != [] {
      var front, last := Unsnoc(nodes);
      AddedOne(ImportStart(version), front, last, version);
      var before := AddedAll(ImportStart(version), front, version).value;
      StreamAccounted(front, version, before);
      AddAccounted(before, front, last, version, st);
    }
  }

  lemma {:induction false} RenumberExports(t: Node, nonces: seq<int>)
    requires Versioned(t, |nonces| - 1) && Tapering(t)
    ensures Saved(t) && Saved(Renumber(t, nonces).node) && Exported(Renumber(t, nonces).node) == Exported(t)
    ensures Versioned(Renumber(t, nonces).node, |nonces| - 1)
  {
    SavedWhenVersioned(t, |nonces| - 1);
    RenumberTapers(t, nonces);
    if t.Inner? {
      RenumberExports(t.left, nonces);
      RenumberExports(t.right, Renumber(t.left, nonces).nonces);
    }
  }

  /** The imported tree exports the stream it came from. */
  lemma {:induction false} ImportedExports(t: Node, version: nat)
    requires Versioned(t, version) && Tapering(t)
    ensures Saved(t) && StreamOf(Exported(t), version, Imported(t, version))
  {
    RenumberExports(t, Zeros(version + 1));
    RenumberTapers(t, Zeros(version + 1));
  }

  /** A whole stream leads to a commit: nothing was refused, and one writable tree or nothing is left. */
  ghost predicate Accepted(nodes: seq<ExportNode>, version: nat) {
    var st := AddedAll(ImportStart(version), nodes, version);
    st.Ok? && AllLinked(st.value.written) && CommitOps(st.value, version).Ok?
  }

  lemma {:induction false} OneLeft(nodes: seq<ExportNode>, version: nat, stack: seq<Item>, item: Item)
    requires Sane(item, version) && Writable(item) && stack == [item]
    requires AllWhole(stack, version) ==> Streams(stack, version) == nodes
    ensures StreamOf(nodes, version, item.node)
  {
    WritableIsWhole(item, version);
    StreamsAppend([], item.node, version);
    assert [] + [Built(item.node)] == stack;
    assert Streams([], version) + Exported(item.node) == Exported(item.node);
  }

  lemma {:induction false} AcceptedState(nodes: seq<ExportNode>, version: nat, st: ImportState)
    requires Accounted(st, nodes, version) && CommitOps(st, version).Ok? && nodes != []
    ensures |st.stack| == 1 && st.stack[0].Built? && StreamOf(nodes, version, st.stack[0].node)
  {
    assert st.stack != [] by {
      assert AllWhole([], version) && Streams([], version) == [];
    }
    OneLeft(nodes, version, st.stack, st.stack[0]);
  }

  lemma {:induction false} AcceptedIsExport(nodes: seq<ExportNode>, version: nat)
    requires Accepted(nodes, version) && nodes != []
    ensures exists t :: StreamOf(nodes, version, t)
  {
    var st := AddedAll(ImportStart(version), nodes, version).value;
    StreamAccounted(nodes, version, st);
    AcceptedState(nodes, version, st);
  }

  /** The tree that a store holds for the version, if the stream is its export. */
  ghost predicate Restores(db: Db, version: nat, nodes: seq<ExportNode>) {
    var r := ReadVersion(db, version);
    r.Ok? && if r.value.None? then nodes == [] else StreamOf(nodes, version, r.value.value)
  }

  lemma {:induction false} ExportIsAccepted(nodes: seq<ExportNode>, version: nat, t: Node)
    requires StreamOf(nodes, version, t)
    ensures Accepted(nodes, version)
    ensures Restores(Apply(map[], CommitOps(AddedAll(ImportStart(version), nodes, version).value, version).value),
                     version, nodes)
  {
    ImportCommits(t, version, AddedAll(ImportStart(version), nodes, version));
    ImportedExports(t, version);
  }

  /**
   * An import is committed exactly when the stream is empty or is the export of a tree with falling heights and with
   * versions up to that of the import; and then the version reads back as a tree that exports the same stream.
   */
  lemma {:induction false} ImportExactly(nodes: seq<ExportNode>, version: nat)
    ensures Accepted(nodes, version) <==> nodes == [] || exists t :: StreamOf(nodes, version, t)
    ensures Accepted(nodes, version) ==>
      Restores(Apply(map[], CommitOps(AddedAll(ImportStart(version), nodes, version).value, version).value),
               version, nodes)
  {
    if nodes == [] {
      ImportNothing(version);
    } else {
      if Accepted(nodes, version) {
        AcceptedIsExport(nodes, version);
      }
      if t :| StreamOf(nodes, version, t) {
        ExportIsAccepted(nodes, version, t);
      }
    }
  }

  /** Neither key order nor exact heights are checked: two leaves in the wrong order under a root of height 5. */
  lemma {:induction false} MisorderedIsAccepted(nodes: seq<ExportNode>, t: Node)
    requires t == Inner(Some(NodeKey(1, 1)), [9], 5, 2, Leaf(Some(NodeKey(1, 2)), [2], []),
                        Leaf(Some(NodeKey(1, 3)), [1], []))
    requires nodes == [ExportNode(Some([2]), Some([]), 1, 0), ExportNode(Some([1]), Some([]), 1, 0),
                       ExportNode(Some([9]), None, 1, 5)]
    ensures !Ordered(t) && !Measured(t) && StreamOf(nodes, 1, t) && Accepted(nodes, 1)
  {
    assert Exported(t.left) == [nodes[0]] && Exported(t.right) == [nodes[1]] && Export(t) == nodes[2];
    ExportIsAccepted(nodes, 1, t);
  }

  // ----- Counters -----

  /** How many nodes of a version the stream holds. */
  function CountOf(nodes: seq<ExportNode>, v: int): nat {
    if nodes == [] then 0
    else CountOf(nodes[..|nodes| - 1], v) + if nodes[|nodes| - 1].version == v then 1 else 0
  }

  lemma {:induction false} CountOne(nodes: seq<ExportNode>, e: ExportNode, v: int)
    ensures CountOf(nodes + [e], v) == CountOf(nodes, v) + if e.version == v then 1 else 0
  {
    assert (nodes + [e])[..|nodes|] == nodes;
  }

  lemma {:induction false} AddCounts(st: ImportState, e: ExportNode, n: ImportState, v: int)
    requires Added(st, e) == Ok(n) && 0 <= v < |st.nonces|
    ensures n.nonces[v] == st.nonces[v] + if e.version == v then 1 else 0
    ensures 0 <= e.version < |st.nonces| && n.stack != []
    ensures
      var item := n.stack[|n.stack| - 1];
      item.Built? ==> item.node.nk == Some(NodeKey(e.version, n.nonces[e.version] + 1))
  {
  }

  /** A counter holds the number of nodes of its version, and the node just added has the nonce after that. */
  lemma {:induction false} Counted(nodes: seq<ExportNode>, version: nat, st: ImportState, v: int)
    requires AddedAll(ImportStart(version), nodes, version) == Ok(st) && 0 <= v <= version
    ensures st.nonces[v] == CountOf(nodes, v)
    ensures nodes != [] ==>
      && st.stack != []
      && var item, w := st.stack[|st.stack| - 1], nodes[|nodes| - 1].version;
         item.Built? ==> item.node.nk == Some(NodeKey(w, CountOf(nodes, w) + 1))
  {
    if nodes != [] {
      var front, last := Unsnoc(nodes);
      AddedOne(ImportStart(version), front, last, version);
      CountOne(front, last, v);
      CountOne(front, last, last.version);
      var before := AddedAll(ImportStart(version), front, version).value;
      AddCounts(before, last, st, v);
      AddCounts(before, last, st, last.version);
      Counted(front, version, before, v);
      Counted(front, version, before, last.version);
    }
  }

  // ----- The importer object -----

  class Importer {
    const version: nat
    var stack: seq<Item>
    var nonces: seq<int>
    var written: seq<Node>

    constructor (version: nat)
      ensures this.version == version && State() == ImportStart(version) && Valid()
    {
      this.version := version;
      stack, nonces, written := [], Zeros(version + 1), [];
    }

    ghost predicate Valid()
      reads this
    {
      |nonces| == version + 1 && AllLinked(written)
    }

    ghost function State(): ImportState
      reads this
    {
      ImportState(stack, nonces, written)
    }

    /** `writeNode`. */
    method WriteNode(item: Item) returns (ok: bool)
      requires Valid()
      modifies this`written
      ensures Valid() && ok == Writable(item)
      ensures written == old(written) + if ok then [item.node] else []
    {
      ok := item.Built? && Linked(item.node) && KeyOf(item.node).version > 0;
      if ok {
        written := written + [item.node];
      }
    }

    /** `Add`; the stack and the counters are only touched when the node is accepted. */
    method Add(e: ExportNode) returns (r: Result<(), ImportError>)
      requires Valid()
      modifies this
      ensures Valid()
      ensures match old(Added(State(), e))
        case Ok(st) => r.Ok? && State() == st
        case Err(err) => r == Err(err) && stack == old(stack) && nonces == old(nonces)
    {
      if e.version > version {
        return Err(VersionTooGreat);
      }
      if e.version < 0 {
        return Err(NegativeVersion);
      }
      var n := |stack|;
      var nonce := nonces[e.version] + 1;
      var nk := Some(NodeKey(e.version, nonce + 1));
      var item: Item;
      if e.height == 0 {
        item := if e.key.Some? && e.value.Some? then Built(Leaf(nk, e.key.value, e.value.value)) else Malformed(0);
      } else if n >= 2 && ItemHeight(stack[n - 1]) < e.height && ItemHeight(stack[n - 2]) < e.height {
        var left, right := stack[n - 2], stack[n - 1];
        var leftOk := WriteNode(left);
        if !leftOk {
          return Err(InvalidNode);
        }
        var rightOk := WriteNode(right);
        if !rightOk {
          return Err(InvalidNode);
        }
        stack := stack[..n - 2];
        item := if e.key.Some? && e.value.None?
          then Built(Inner(nk, e.key.value, e.height, Size(left.node) + Size(right.node), left.node, right.node))
          else Malformed(e.height);
        assert written == old(written) + [left.node, right.node];
      } else {
        item := Malformed(e.height);
      }
      nonces := nonces[e.version := nonce];
      stack := stack + [item];
      return Ok(());
    }

    /** `Commit` into an empty store: nothing, or the one tree left on the stack. */
    method Commit() returns (r: Result<Db, ImportError>)
      requires Valid()
      modifies this
      ensures r.Ok? <==> old(stack == [] || (|stack| == 1 && Writable(stack[0])))
      ensures old(|stack| > 1) ==> r == Err(InvalidStructure(old(|stack|)))
      ensures match old(CommitOps(State(), version))
        case Ok(ops) => r == Ok(Apply(map[], ops))
        case Err(err) => r == Err(err)
    {
      var batch := PutAll(written);
      if |stack| == 0 {
        batch := batch + [Put(RootKey(version), EmptyRoot)];
      } else if |stack| == 1 {
        var item := stack[0];
        if !(item.Built? && Linked(item.node) && KeyOf(item.node).version > 0) {
          return Err(InvalidNode);
        }
        var nk := NodeKey(KeyOf(item.node).version, 1);
        batch := batch + [Put(nk, Stored(RecordOf(Rekey(item.node, nk))))];
        if nk.version < version {
          batch := batch + [Put(RootKey(version), Reference(nk))];
        }
      } else {
        return Err(InvalidStructure(|stack|));
      }
      return Ok(Apply(map[], batch));
    }
  }

  /** `newImporter`: only into an empty tree. `latestVersion` is the cached one, which is 0 until the tree is loaded. */
  method NewImporter(version: int, latestVersion: int, isEmpty: bool) returns (r: Result<Importer, ImportError>)
    ensures version < 0 ==> r == Err(NegativeVersion)
    ensures version >= 0 ==> (r.Ok? <==> latestVersion <= 0 && isEmpty)
    ensures version >= 0 && r.Err? ==> r == Err(NotEmpty)
    ensures r.Ok? ==> fresh(r.value) && r.value.Valid() && r.value.State() == ImportStart(version)
  {
    if version < 0 {
      return Err(NegativeVersion);
    }
    if latestVersion > 0 || !isEmpty {
      return Err(NotEmpty);
    }
    var importer := new Importer(version);
    return Ok(importer);
  }

  /** Every node of the stream in order, up to the first that is refused. */
  method AddEach(importer: Importer, nodes: seq<ExportNode>) returns (failed: Option<ImportError>)
    requires importer.Valid() && importer.State() == ImportStart(importer.version)
    modifies importer
    ensures importer.Valid()
    ensures
      var st := AddedAll(ImportStart(importer.version), nodes, importer.version);
      if failed.None? then st == Ok(importer.State()) else st.Err?
  {
    var i, version := 0, importer.version;
    while i < |nodes|
      invariant 0 <= i <= |nodes| && importer.Valid()
      invariant AddedAll(ImportStart(version), nodes[..i], version) == Ok(importer.State())
    {
      AddedOne(ImportStart(version), nodes[..i], nodes[i], version);
      assert nodes[..i + 1] == nodes[..i] + [nodes[i]];
      var added := importer.Add(nodes[i]);
      if added.Err? {
        FailsEarly(ImportStart(version), nodes, i + 1, version);
        return Some(added.error);
      }
      i := i + 1;
    }
    assert nodes[..i] == nodes;
    return None;
  }

  /**
   * A whole import: every node of the stream in order, then the commit. It succeeds exactly on the empty stream and on
   * exports, and the version then reads back as a tree with the same export.
   */
  method ImportAll(nodes: seq<ExportNode>, version: nat) returns (r: Result<Db, ImportError>)
    ensures r.Ok? <==> nodes == [] || exists t :: StreamOf(nodes, version, t)
    ensures r.Ok? ==> Restores(r.value, version, nodes)
    ensures AddedAll(ImportStart(version), nodes, version).Err? ==> r.Err?
    ensures AddedAll(ImportStart(version), nodes, version).Ok? ==>
      && AllLinked(AddedAll(ImportStart(version), nodes, version).value.written)
      && match CommitOps(AddedAll(ImportStart(version), nodes, version).value, version)
         case Ok(ops) => r == Ok(Apply(map[], ops))
         case Err(err) => r == Err(err)
  {
    ImportExactly(nodes, version);
    var importer := new Importer(version);
    var failed := AddEach(importer, nodes);
    if failed.Some? {
      return Err(failed.value);
    }
    r := importer.Commit();
  }

  lemma {:induction false} FailsEarly(st: ImportState, nodes: seq<ExportNode>, k: int, version: int)
    requires |st.nonces| == version + 1 && 0 <= k <= |nodes|
    requires AddedAll(st, nodes[..k], version).Err?
    ensures AddedAll(st, nodes, version).Err?
    decreases |nodes|
  {
    if k == |nodes| {
      assert nodes[..k] == nodes;
    } else {
      assert nodes[..|nodes| - 1][..k] == nodes[..k];
      FailsEarly(st, nodes[..|nodes| - 1], k, version);
    }
  }
}
