/**
 * The compressed export stream: branch keys are left out, leaf keys and branch versions are written as differences.
 * Decompressing it restores the stream of every well-formed tree exactly.
 */
module Compress {
  import opened Base
  import opened Trees
  import opened Store
  import opened Encoding
  import opened ExportImport

  // ----- Key differences -----

  /** How many leading bytes two strings share. */
  function SharedPrefix(a: Bytes, b: Bytes): (n: nat)
    ensures n <= |a| && n <= |b| && a[..n] == b[..n]
    ensures n < |a| && n < |b| ==> a[n] != b[n]
  {
    if a == [] || b == [] || a[0] != b[0] then 0
    else
      var n := SharedPrefix(a[1..], b[1..]);
      assert a[..n + 1] == [a[0]] + a[1..][..n] && b[..n + 1] == [b[0]] + b[1..][..n];
      n + 1
  }

  lemma {:induction false} SharedUnique(a: Bytes, b: Bytes, n: nat, m: nat)
    requires n <= |a| && n <= |b| && a[..n] == b[..n] && (n < |a| && n < |b| ==> a[n] != b[n])
    requires m <= |a| && m <= |b| && a[..m] == b[..m] && (m < |a| && m < |b| ==> a[m] != b[m])
    ensures n == m
  {
    forall i | 0 <= i < n ensures a[i] == b[i] {
      assert a[..n][i] == b[..n][i];
    }
    forall i | 0 <= i < m ensures a[i] == b[i] {
      assert a[..m][i] == b[..m][i];
    }
  }

  /** `diffOffset`: the loop over the shorter length. */
  method DiffOffset(a: Bytes, b: Bytes) returns (off: nat)
    ensures off == SharedPrefix(a, b)
  {
    var l := if |a| < |b| then |a| else |b|;
    off := 0;
    while off < l && a[off] == b[off]
      invariant 0 <= off <= l && a[..off] == b[..off]
    {
      assert a[..off + 1] == a[..off] + [a[off]] && b[..off + 1] == b[..off] + [b[off]];
      off := off + 1;
    }
    SharedUnique(a, b, off, SharedPrefix(a, b));
  }

  function DeltaEncode(key: Bytes, lastKey: Bytes): Bytes {
    var shared := SharedPrefix(lastKey, key);
    PutUvarint(shared) + key[shared..]
  }

  datatype StreamError = BadUvarint | SharedTooLong | MissingChildren

  /** A shared length beyond the last key is an index out of range. */
  function DeltaDecode(key: Bytes, lastKey: Bytes): Result<Bytes, StreamError> {
    match DecodeUvarint(key)
    case Err(_) => Err(BadUvarint)
    case Ok((shared, n)) =>
      if shared == 0 then Ok(key[n..])
      else if shared > |lastKey| then Err(SharedTooLong)
      else Ok(lastKey[..shared] + key[n..])
  }

  /** A key reads back from its difference to any last key. */
  lemma {:induction false} DeltaRoundTrip(key: Bytes, lastKey: Bytes)
    requires |key| < TWO_64
    ensures DeltaDecode(DeltaEncode(key, lastKey), lastKey) == Ok(key)
  {
    var shared := SharedPrefix(lastKey, key);
    var enc := DeltaEncode(key, lastKey);
    UvarintRoundTrip(shared, key[shared..]);
    assert enc[|PutUvarint(shared)|..] == key[shared..];
    assert key == key[..shared] + key[shared..];
  }

  /** The difference reads as the number of shared bytes, and then the rest of the key as it is. */
  lemma {:induction false} DeltaIsRest(key: Bytes, lastKey: Bytes, n: nat)
    requires |key| < TWO_64 && n <= |key| && n <= |lastKey| && key[..n] == lastKey[..n]
    requires n < |key| && n < |lastKey| ==> key[n] != lastKey[n]
    ensures
      var bz, size := DeltaEncode(key, lastKey), |PutUvarint(n)|;
      size <= |bz| && DecodeUvarint(bz) == Ok((n, size)) && bz[size..] == key[n..]
  {
    SharedUnique(lastKey, key, n, SharedPrefix(lastKey, key));
    UvarintRoundTrip(n, key[n..]);
  }

  /** What any difference decodes to; one that shares more than there is is refused. */
  lemma {:induction false} DeltaExactly(shared: nat, rest: Bytes, lastKey: Bytes)
    requires shared < TWO_64
    ensures DeltaDecode(PutUvarint(shared) + rest, lastKey) ==
      if shared > |lastKey| then Err(SharedTooLong) else Ok(lastKey[..shared] + rest)
  {
    UvarintRoundTrip(shared, rest);
    assert (PutUvarint(shared) + rest)[|PutUvarint(shared)|..] == rest;
    assert lastKey[..0] + rest == rest;
  }

  // ----- The stream -----

  datatype Compressing = Compressing(lastKey: Bytes, versions: seq<int>)

  datatype Decompressing = Decompressing(lastKey: Bytes, minKeys: seq<Bytes>, versions: seq<int>)

  /** The greater version of the two subtrees on top of the stack. */
  function TopVersion(versions: seq<int>): int
    requires |versions| >= 2
  {
    Max(versions[|versions| - 1], versions[|versions| - 2])
  }

  function Combined(versions: seq<int>, version: int): seq<int>
    requires |versions| >= 2
  {
    versions[..|versions| - 2] + [version]
  }

  /** A missing key counts as the empty one. */
  function KeyOrEmpty(e: ExportNode): Bytes {
    if e.key.None? then [] else e.key.value
  }

  datatype Step<S> = Step(state: S, node: ExportNode)

  /** `CompressExporter.Next` on the next node of the inner stream. */
  function Compressed(st: Compressing, e: ExportNode): Result<Step<Compressing>, StreamError> {
    if e.height == 0 then
      var key := KeyOrEmpty(e);
      Ok(Step(Compressing(key, st.versions + [e.version]), e.(key := Some(DeltaEncode(key, st.lastKey)))))
    else if |st.versions| < 2 then Err(MissingChildren)
    else
      Ok(Step(Compressing(st.lastKey, Combined(st.versions, e.version)),
              e.(key := None, version := e.version - TopVersion(st.versions))))
  }

  /** `CompressImporter.Add`: what is handed on to the inner importer. */
  function Decompressed(st: Decompressing, e: ExportNode): Result<Step<Decompressing>, StreamError> {
    if e.height == 0 then
      var key :- DeltaDecode(KeyOrEmpty(e), st.lastKey);
      Ok(Step(Decompressing(key, st.minKeys + [key], st.versions + [e.version]), e.(key := Some(key))))
    else if |st.versions| < 2 || |st.minKeys| < 1 then Err(MissingChildren)
    else
      var version := e.version + TopVersion(st.versions);
      Ok(Step(Decompressing(st.lastKey, st.minKeys[..|st.minKeys| - 1], Combined(st.versions, version)),
              e.(key := Some(st.minKeys[|st.minKeys| - 1]), version := version)))
  }

  datatype Stream<S> = Stream(state: S, nodes: seq<ExportNode>)

  function CompressAll(st: Compressing, nodes: seq<ExportNode>): Result<Stream<Compressing>, StreamError> {
    if nodes == [] then Ok(Stream(st, []))
    else
      var front :- CompressAll(st, nodes[..|nodes| - 1]);
      var last :- Compressed(front.state, nodes[|nodes| - 1]);
      Ok(Stream(last.state, front.nodes + [last.node]))
  }

  function DecompressAll(st: Decompressing, nodes: seq<ExportNode>): Result<Stream<Decompressing>, StreamError> {
    if nodes == [] then Ok(Stream(st, []))
    else
      var front :- DecompressAll(st, nodes[..|nodes| - 1]);
      var last :- Decompressed(front.state, nodes[|nodes| - 1]);
      Ok(Stream(last.state, front.nodes + [last.node]))
  }

  /** The compressed stream `out` of `nodes`, and back: what both sides do between two pairs of states. */
  ghost predicate Restores(st: Compressing, nodes: seq<ExportNode>, st': Compressing, out: seq<ExportNode>,
                           d: Decompressing, d': Decompressing) {
    CompressAll(st, nodes) == Ok(Stream(st', out)) && DecompressAll(d, out) == Ok(Stream(d', nodes))
  }

  lemma {:induction false} RestoresOne(st: Compressing, nodes: seq<ExportNode>, st1: Compressing, out: seq<ExportNode>,
                                       d: Decompressing, d1: Decompressing,
                                      e: ExportNode, st2: Compressing, f: ExportNode, d2: Decompressing)
    requires Restores(st, nodes, st1, out, d, d1)
    requires Compressed(st1, e) == Ok(Step(st2, f)) && Decompressed(d1, f) == Ok(Step(d2, e))
    ensures Restores(st, nodes + [e], st2, out + [f], d, d2)
  {
    assert (nodes + [e])[..|nodes|] == nodes && (out + [f])[..|out|] == out;
  }

  lemma {:induction false} CompressOne(st: Compressing, nodes: seq<ExportNode>, mid: Stream<Compressing>, e: ExportNode,
                                      next: Step<Compressing>)
    requires CompressAll(st, nodes) == Ok(mid) && Compressed(mid.state, e) == Ok(next)
    ensures CompressAll(st, nodes + [e]) == Ok(Stream(next.state, mid.nodes + [next.node]))
  {
    assert (nodes + [e])[..|nodes|] == nodes;
  }

  /** The last node of a compressed stream. */
  lemma {:induction false} CompressLast(st: Compressing, nodes: seq<ExportNode>, e: ExportNode, r: Stream<Compressing>)
    returns (mid: Stream<Compressing>, next: Step<Compressing>)
    requires CompressAll(st, nodes + [e]) == Ok(r)
    ensures CompressAll(st, nodes) == Ok(mid) && Compressed(mid.state, e) == Ok(next)
    ensures r == Stream(next.state, mid.nodes + [next.node])
  {
    assert (nodes + [e])[..|nodes|] == nodes;
    mid := CompressAll(st, nodes).value;
    next := Compressed(mid.state, e).value;
  }

  lemma {:induction false} CompressAppendsOne(st: Compressing, a: seq<ExportNode>, first: Stream<Compressing>,
                                              b: seq<ExportNode>,
                                              mid: Stream<Compressing>, last: ExportNode, next: Step<Compressing>)
    requires CompressAll(st, a + b) == Ok(Stream(mid.state, first.nodes + mid.nodes))
    requires Compressed(mid.state, last) == Ok(next)
    ensures CompressAll(st, a + (b + [last])) == Ok(Stream(next.state, first.nodes + (mid.nodes + [next.node])))
  {
    Regroup(a, b, [last]);
    CompressOne(st, a + b, Stream(mid.state, first.nodes + mid.nodes), last, next);
    Regroup(first.nodes, mid.nodes, [next.node]);
  }

  lemma {:induction false} CompressAppends(st: Compressing, a: seq<ExportNode>, first: Stream<Compressing>,
                                           b: seq<ExportNode>, second: Stream<Compressing>)
    requires CompressAll(st, a) == Ok(first) && CompressAll(first.state, b) == Ok(second)
    ensures CompressAll(st, a + b) == Ok(Stream(second.state, first.nodes + second.nodes))
    decreases |b|
  {
    if b == [] {
      assert a + b == a && first.nodes + second.nodes == first.nodes;
    } else {
      var front, last := Unsnoc(b);
      var mid, next := CompressLast(first.state, front, last, second);
      CompressAppends(st, a, first, front, mid);
      CompressAppendsOne(st, a, first, front, mid, last, next);
    }
  }

  lemma {:induction false} DecompressOne(d: Decompressing, nodes: seq<ExportNode>, mid: Stream<Decompressing>,
                                         e: ExportNode,
                                        next: Step<Decompressing>)
    requires DecompressAll(d, nodes) == Ok(mid) && Decompressed(mid.state, e) == Ok(next)
    ensures DecompressAll(d, nodes + [e]) == Ok(Stream(next.state, mid.nodes + [next.node]))
  {
    assert (nodes + [e])[..|nodes|] == nodes;
  }

  lemma {:induction false} DecompressLast(d: Decompressing, nodes: seq<ExportNode>, e: ExportNode,
                                          r: Stream<Decompressing>)
    returns (mid: Stream<Decompressing>, next: Step<Decompressing>)
    requires DecompressAll(d, nodes + [e]) == Ok(r)
    ensures DecompressAll(d, nodes) == Ok(mid) && Decompressed(mid.state, e) == Ok(next)
    ensures r == Stream(next.state, mid.nodes + [next.node])
  {
    assert (nodes + [e])[..|nodes|] == nodes;
    mid := DecompressAll(d, nodes).value;
    next := Decompressed(mid.state, e).value;
  }

  lemma {:induction false} DecompressAppendsOne(d: Decompressing, a: seq<ExportNode>, first: Stream<Decompressing>,
                                                b: seq<ExportNode>,
                                                mid: Stream<Decompressing>, last: ExportNode, next: Step<Decompressing>)
    requires DecompressAll(d, a + b) == Ok(Stream(mid.state, first.nodes + mid.nodes))
    requires Decompressed(mid.state, last) == Ok(next)
    ensures DecompressAll(d, a + (b + [last])) == Ok(Stream(next.state, first.nodes + (mid.nodes + [next.node])))
  {
    Regroup(a, b, [last]);
    DecompressOne(d, a + b, Stream(mid.state, first.nodes + mid.nodes), last, next);
    Regroup(first.nodes, mid.nodes, [next.node]);
  }

  lemma {:induction false} DecompressAppends(d: Decompressing, a: seq<ExportNode>, first: Stream<Decompressing>,
                                             b: seq<ExportNode>, second: Stream<Decompressing>)
    requires DecompressAll(d, a) == Ok(first) && DecompressAll(first.state, b) == Ok(second)
    ensures DecompressAll(d, a + b) == Ok(Stream(second.state, first.nodes + second.nodes))
    decreases |b|
  {
    if b == [] {
      assert a + b == a && first.nodes + second.nodes == first.nodes;
    } else {
      var front, last := Unsnoc(b);
      var mid, next := DecompressLast(first.state, front, last, second);
      DecompressAppends(d, a, first, front, mid);
      DecompressAppendsOne(d, a, first, front, mid, last, next);
    }
  }

  // ----- The stream of a tree -----

  /** Leaf keys are short enough for their length to be written. */
  predicate ShortKeys(t: Node) {
    if t.Leaf? then |t.key| < TWO_64 else ShortKeys(t.left) && ShortKeys(t.right)
  }

  function StepOver(st: Compressing, t: Node): Compressing
    requires t.nk.Some?
  {
    Compressing(MaxKey(t), st.versions + [KeyOf(t).version])
  }

  function BackOver(d: Decompressing, t: Node): Decompressing
    requires t.nk.Some?
  {
    Decompressing(MaxKey(t), d.minKeys + [MinKey(t)], d.versions + [KeyOf(t).version])
  }

  /** A leaf and back: the decoder knows the key before it. */
  lemma {:induction false} LeafStep(st: Compressing, d: Decompressing, t: Node, f: ExportNode)
    requires t.Leaf? && t.nk.Some? && |t.key| < TWO_64 && d.lastKey == st.lastKey
    requires f == Export(t).(key := Some(DeltaEncode(t.key, st.lastKey)))
    ensures Compressed(st, Export(t)) == Ok(Step(StepOver(st, t), f))
    ensures Decompressed(d, f) == Ok(Step(BackOver(d, t), Export(t)))
  {
    DeltaRoundTrip(t.key, st.lastKey);
  }

  /**
   * The compressed stream of a tree: a leaf key as its difference to the leaf key before it, no branch keys, and a
   * branch version as its difference to the greater version of its children.
   */
  function Compact(t: Node, lastKey: Bytes): seq<ExportNode>
    requires Saved(t)
  {
    if t.Leaf? then [ExportNode(Some(DeltaEncode(t.key, lastKey)), Some(t.value), KeyOf(t).version, 0)]
    else
      var newest := Max(KeyOf(t.left).version, KeyOf(t.right).version);
      Compact(t.left, lastKey) + Compact(t.right, MaxKey(t.left))
        + [ExportNode(None, None, KeyOf(t).version - newest, t.height)]
  }

  lemma {:induction false} LeafRestores(st: Compressing, d: Decompressing, t: Node)
    requires t.Leaf? && t.nk.Some? && |t.key| < TWO_64 && d.lastKey == st.lastKey
    ensures Restores(st, [Export(t)], StepOver(st, t), Compact(t, st.lastKey), d, BackOver(d, t))
  {
    var f := Export(t).(key := Some(DeltaEncode(t.key, st.lastKey)));
    LeafStep(st, d, t, f);
    RestoresOne(st, [], st, [], d, d, Export(t), StepOver(st, t), f, BackOver(d, t));
    assert [] + [Export(t)] == [Export(t)] && [] + [f] == [f];
  }

  /** A branch after its two subtrees: its key is the least key of the right one. */
  lemma {:induction false} BranchRestores(st: Compressing, d: Decompressing, t: Node)
    requires t.Inner? && Linked(t) && Ordered(t) && Measured(t) && d.versions == st.versions
    ensures
      var st2, d2 := StepOver(StepOver(st, t.left), t.right), BackOver(BackOver(d, t.left), t.right);
      var f :=
        Export(t).(key := None, version := KeyOf(t).version - Max(KeyOf(t.right).version, KeyOf(t.left).version));
      Compressed(st2, Export(t)) == Ok(Step(StepOver(st, t), f))
        && Decompressed(d2, f) == Ok(Step(BackOver(d, t), Export(t)))
  {
    MeasuredBounds(t.left);
    MeasuredBounds(t.right);
    var l, r := KeyOf(t.left).version, KeyOf(t.right).version;
    var versions := st.versions + [l] + [r];
    assert versions[..|versions| - 2] == st.versions;
    var minKeys := d.minKeys + [MinKey(t.left)] + [MinKey(t.right)];
    assert minKeys[..|minKeys| - 1] == d.minKeys + [MinKey(t.left)];
  }

  /** Two streams and a node after them. */
  lemma {:induction false} RestoresBoth(st: Compressing, a: seq<ExportNode>, st1: Compressing, x: seq<ExportNode>,
                                        d: Decompressing, d1: Decompressing,
                                        b: seq<ExportNode>, st2: Compressing, y: seq<ExportNode>, d2: Decompressing,
                                        e: ExportNode, st3: Compressing, f: ExportNode, d3: Decompressing)
    requires Restores(st, a, st1, x, d, d1) && Restores(st1, b, st2, y, d1, d2)
    requires Compressed(st2, e) == Ok(Step(st3, f)) && Decompressed(d2, f) == Ok(Step(d3, e))
    ensures Restores(st, a + b + [e], st3, x + y + [f], d, d3)
  {
    CompressAppends(st, a, Stream(st1, x), b, Stream(st2, y));
    DecompressAppends(d, x, Stream(d1, a), y, Stream(d2, b));
    RestoresOne(st, a + b, st2, x + y, d, d2, e, st3, f, d3);
  }

  lemma {:induction false} CompactInner(t: Node, lastKey: Bytes, f: ExportNode)
    requires t.Inner? && Saved(t)
    requires f ==
      Export(t).(key := None, version := KeyOf(t).version - Max(KeyOf(t.right).version, KeyOf(t.left).version))
    ensures Compact(t, lastKey) == Compact(t.left, lastKey) + Compact(t.right, MaxKey(t.left)) + [f]
    ensures Exported(t) == Exported(t.left) + Exported(t.right) + [Export(t)]
  {
  }

  /**
   * From any pair of states that agree, the stacks compress the stream of a tree to its compact form, and decompress
   * that to the stream again.
   */
  lemma {:induction false} TreeRestores(st: Compressing, d: Decompressing, t: Node)
    requires Saved(t) && Ordered(t) && Measured(t) && ShortKeys(t) && d.lastKey == st.lastKey
    requires d.versions == st.versions
    ensures Restores(st, Exported(t), StepOver(st, t), Compact(t, st.lastKey), d, BackOver(d, t))
    decreases t
  {
    if t.Leaf? {
      LeafRestores(st, d, t);
    } else {
      var st1, d1 := StepOver(st, t.left), BackOver(d, t.left);
      TreeRestores(st, d, t.left);
      TreeRestores(st1, d1, t.right);
      BranchRestores(st, d, t);
      var f :=
        Export(t).(key := None, version := KeyOf(t).version - Max(KeyOf(t.right).version, KeyOf(t.left).version));
      RestoresBoth(st, Exported(t.left), st1, Compact(t.left, st.lastKey), d, d1,
                   Exported(t.right), StepOver(st1, t.right), Compact(t.right, MaxKey(t.left)), BackOver(d1, t.right),
                   Export(t), StepOver(st, t), f, BackOver(d, t));
      CompactInner(t, st.lastKey, f);
    }
  }

  const COMPRESS_START := Compressing([], [])
  const DECOMPRESS_START := Decompressing([], [], [])

  /** The export of any well-formed tree compresses to its compact form, and that decompresses to the export again. */
  lemma {:induction false} CompressionRestores(t: Node)
    requires Saved(t) && Avl(t) && ShortKeys(t)
    ensures CompressAll(COMPRESS_START, Exported(t)).Ok?
    ensures var out := CompressAll(COMPRESS_START, Exported(t)).value.nodes;
      && out == Compact(t, [])
      && DecompressAll(DECOMPRESS_START, out).Ok? && DecompressAll(DECOMPRESS_START, out).value.nodes == Exported(t)
  {
    TreeRestores(COMPRESS_START, DECOMPRESS_START, t);
  }

  // ----- The wrappers -----

  class CompressExporter {
    var lastKey: Bytes
    var versionStack: seq<int>

    constructor ()
      ensures State() == COMPRESS_START
    {
      lastKey, versionStack := [], [];
    }

    ghost function State(): Compressing
      reads this
    {
      Compressing(lastKey, versionStack)
    }

    /** `Next`, given the next node of the inner exporter. */
    method Next(n: ExportNode) returns (r: Result<ExportNode, StreamError>)
      modifies this
      ensures match old(Compressed(State(), n))
        case Ok(step) => r == Ok(step.node) && State() == step.state
        case Err(e) => r == Err(e) && State() == old(State())
    {
      if n.height == 0 {
        var key := KeyOrEmpty(n);
        var shared := DiffOffset(lastKey, key);
        var encoded := PutUvarint(shared) + key[shared..];
        lastKey := key;
        versionStack := versionStack + [n.version];
        return Ok(n.(key := Some(encoded)));
      }
      if |versionStack| < 2 {
        return Err(MissingChildren);
      }
      var maxVersion := Max(versionStack[|versionStack| - 1], versionStack[|versionStack| - 2]);
      versionStack := versionStack[..|versionStack| - 1];
      versionStack := versionStack[|versionStack| - 1 := n.version];
      assert versionStack == Combined(old(versionStack), n.version);
      return Ok(n.(key := None, version := n.version - maxVersion));
    }
  }

  class CompressImporter {
    var lastKey: Bytes
    var minKeyStack: seq<Bytes>
    var versionStack: seq<int>

    constructor ()
      ensures State() == DECOMPRESS_START
    {
      lastKey, minKeyStack, versionStack := [], [], [];
    }

    ghost function State(): Decompressing
      reads this
    {
      Decompressing(lastKey, minKeyStack, versionStack)
    }

    /** `Add`, returning the node for the inner importer. */
    method Add(node: ExportNode) returns (r: Result<ExportNode, StreamError>)
      modifies this
      ensures match old(Decompressed(State(), node))
        case Ok(step) => r == Ok(step.node) && State() == step.state
        case Err(e) => r == Err(e) && State() == old(State())
    {
      if node.height == 0 {
        var key :- DeltaDecode(KeyOrEmpty(node), lastKey);
        lastKey := key;
        minKeyStack := minKeyStack + [key];
        versionStack := versionStack + [node.version];
        return Ok(node.(key := Some(key)));
      }
      if |versionStack| < 2 || |minKeyStack| < 1 {
        return Err(MissingChildren);
      }
      var key := minKeyStack[|minKeyStack| - 1];
      minKeyStack := minKeyStack[..|minKeyStack| - 1];
      var maxVersion := Max(versionStack[|versionStack| - 1], versionStack[|versionStack| - 2]);
      var version := node.version + maxVersion;
      versionStack := versionStack[..|versionStack| - 1];
      versionStack := versionStack[|versionStack| - 1 := version];
      assert versionStack == Combined(old(versionStack), version);
      return Ok(node.(key := Some(key), version := version));
    }
  }
}
