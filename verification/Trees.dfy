/**
 * AVL+ trees as values. Values live in leaves only; an inner node holds a routing key, a height
 * and a size. A node that has been written to the store carries its node key, a node created
 * since the last save carries none.
 */
module Trees {
  import opened Base

  datatype NodeKey = NodeKey(version: int, nonce: int)

  datatype Node =
    | Leaf(nk: Option<NodeKey>, key: Bytes, value: Bytes)
    | Inner(nk: Option<NodeKey>, key: Bytes, height: int, size: int, left: Node, right: Node)

  function Height(t: Node): int {
    if t.Leaf? then 0 else t.height
  }

  function Size(t: Node): int {
    if t.Leaf? then 1 else t.size
  }

  function Max(a: int, b: int): int {
    if a > b then a else b
  }

  /** The key of the leftmost leaf. */
  function MinKey(t: Node): Bytes {
    if t.Leaf? then t.key else MinKey(t.left)
  }

  /** The key of the rightmost leaf. */
  function MaxKey(t: Node): Bytes {
    if t.Leaf? then t.key else MaxKey(t.right)
  }

  /** Keys ascend from left to right, and every inner key is the least leaf key of its right subtree. */
  predicate Ordered(t: Node) {
    t.Inner? ==>
      && Ordered(t.left) && Ordered(t.right)
      && Less(MaxKey(t.left), t.key)
      && t.key == MinKey(t.right)
  }

  /** Heights and sizes are those of the shape. */
  predicate Measured(t: Node) {
    t.Inner? ==>
      && Measured(t.left) && Measured(t.right)
      && t.height == 1 + Max(Height(t.left), Height(t.right))
      && t.size == Size(t.left) + Size(t.right)
  }

  function Lean(t: Node): int
    requires t.Inner?
  {
    Height(t.left) - Height(t.right)
  }

  /** Sibling heights differ by at most one. */
  predicate Balanced(t: Node) {
    t.Inner? ==> Balanced(t.left) && Balanced(t.right) && -1 <= Lean(t) <= 1
  }

  predicate Avl(t: Node) {
    Ordered(t) && Measured(t) && Balanced(t)
  }

  /** The leaves of a tree by key. */
  function LeafMap(t: Node): map<Bytes, Node> {
    if t.Leaf? then map[t.key := t] else LeafMap(t.left) + LeafMap(t.right)
  }

  /** The finite map a tree stands for. */
  function Model(t: Node): map<Bytes, Bytes> {
    if t.Leaf? then map[t.key := t.value] else Model(t.left) + Model(t.right)
  }

  /** Every subtree of a tree, the tree included. */
  function Nodes(t: Node): set<Node> {
    if t.Leaf? then {t} else {t} + Nodes(t.left) + Nodes(t.right)
  }

  /** Every subtree other than the tree itself. */
  function ProperNodes(t: Node): set<Node> {
    if t.Leaf? then {} else Nodes(t.left) + Nodes(t.right)
  }

  function NodeCount(t: Node): nat {
    if t.Leaf? then 1 else 1 + NodeCount(t.left) + NodeCount(t.right)
  }

  lemma {:induction false} MeasuredBounds(t: Node)
    requires Measured(t)
    ensures Height(t) >= 0 && Size(t) >= 1
    ensures t.Inner? ==> Height(t) >= 1
  {
    if t.Inner? {
      MeasuredBounds(t.left);
      MeasuredBounds(t.right);
    }
  }

  /** Heights fall from parent to child; they need not be those of the shape. */
  predicate Tapering(t: Node) {
    t.Inner? ==> Tapering(t.left) && Tapering(t.right) && Height(t.left) < t.height && Height(t.right) < t.height
  }

  lemma {:induction false} TaperingBounds(t: Node)
    requires Tapering(t)
    ensures Height(t) >= 0 && (t.Inner? ==> Height(t) >= 1)
  {
    if t.Inner? {
      TaperingBounds(t.left);
    }
  }

  lemma {:induction false} MeasuredTapers(t: Node)
    requires Measured(t)
    ensures Tapering(t)
  {
    if t.Inner? {
      MeasuredTapers(t.left);
      MeasuredTapers(t.right);
    }
  }

  lemma {:induction false} LeafMapIsModel(t: Node)
    ensures LeafMap(t).Keys == Model(t).Keys
    ensures forall k :: k in LeafMap(t) ==>
      LeafMap(t)[k].Leaf? && LeafMap(t)[k].key == k && Model(t)[k] == LeafMap(t)[k].value
  {
    if t.Inner? {
      LeafMapIsModel(t.left);
      LeafMapIsModel(t.right);
    }
  }

  /** Every leaf key lies between the leftmost and the rightmost one. */
  lemma {:induction false} KeysWithinBounds(t: Node)
    requires Ordered(t)
    ensures MinKey(t) in LeafMap(t) && MaxKey(t) in LeafMap(t)
    ensures Leq(MinKey(t), MaxKey(t))
    ensures forall k :: k in LeafMap(t) ==> Leq(MinKey(t), k) && Leq(k, MaxKey(t))
  {
    if t.Inner? {
      KeysWithinBounds(t.left);
      KeysWithinBounds(t.right);
      StrictTotalOrder();
    }
  }

  /** The routing key separates the two subtrees. */
  lemma {:induction false} Separated(t: Node)
    requires Ordered(t) && t.Inner?
    ensures forall k :: k in LeafMap(t.left) ==> Less(k, t.key)
    ensures forall k :: k in LeafMap(t.right) ==> Leq(t.key, k)
    ensures LeafMap(t.left).Keys !! LeafMap(t.right).Keys
  {
    KeysWithinBounds(t.left);
    KeysWithinBounds(t.right);
    StrictTotalOrder();
  }

  lemma {:induction false} NodesOfNodes(t: Node, x: Node)
    requires x in Nodes(t)
    ensures Nodes(x) <= Nodes(t)
  {
    if x != t {
      if x in Nodes(t.left) {
        NodesOfNodes(t.left, x);
      } else {
        NodesOfNodes(t.right, x);
      }
    }
  }

  lemma {:induction false} NodesAreAvl(t: Node, x: Node)
    requires x in Nodes(t)
    ensures Ordered(t) ==> Ordered(x)
    ensures Avl(t) ==> Avl(x)
  {
    if x != t {
      if x in Nodes(t.left) {
        NodesAreAvl(t.left, x);
      } else {
        NodesAreAvl(t.right, x);
      }
    }
  }

  /** A subtree's leaves are leaves of the tree. */
  lemma {:induction false} LeavesOfNodes(t: Node, x: Node)
    requires Ordered(t) && x in Nodes(t)
    ensures forall k :: k in LeafMap(x) ==> k in LeafMap(t) && LeafMap(t)[k] == LeafMap(x)[k]
  {
    if x != t {
      Separated(t);
      if x in Nodes(t.left) {
        LeavesOfNodes(t.left, x);
      } else {
        LeavesOfNodes(t.right, x);
      }
    }
  }

  // ----- Leaves in key order -----

  /** The leaves from left to right. */
  function LeafSeq(t: Node): seq<Node> {
    if t.Leaf? then [t] else LeafSeq(t.left) + LeafSeq(t.right)
  }

  predicate SortedLeaves(s: seq<Node>) {
    && (forall i :: 0 <= i < |s| ==> s[i].Leaf?)
    && (forall i, j :: 0 <= i < j < |s| ==> Less(s[i].key, s[j].key))
  }

  lemma {:induction false} LeafSeqMatchesMap(t: Node)
    requires Ordered(t)
    ensures forall i :: 0 <= i < |LeafSeq(t)| ==>
      LeafSeq(t)[i].Leaf? && LeafSeq(t)[i].key in LeafMap(t) && LeafMap(t)[LeafSeq(t)[i].key] == LeafSeq(t)[i]
    ensures forall k :: k in LeafMap(t) ==> LeafMap(t)[k] in LeafSeq(t)
  {
    if t.Inner? {
      LeafSeqMatchesMap(t.left);
      LeafSeqMatchesMap(t.right);
      Separated(t);
    }
  }

  /** The leaves of an ordered tree are strictly sorted by key. */
  lemma {:induction false} LeafSeqSorted(t: Node)
    requires Ordered(t)
    ensures SortedLeaves(LeafSeq(t))
    ensures Measured(t) ==> |LeafSeq(t)| == Size(t)
  {
    if t.Inner? {
      LeafSeqSorted(t.left);
      LeafSeqSorted(t.right);
      var a, b := LeafSeq(t.left), LeafSeq(t.right);
      forall i, j | 0 <= i < |a| && 0 <= j < |b| ensures Less(a[i].key, b[j].key) {
        LeafSeqMatchesMap(t.left);
        LeafSeqMatchesMap(t.right);
        Separated(t);
        if b[j].key != t.key {
          Transitive(a[i].key, t.key, b[j].key);
        }
      }
    }
  }
}
