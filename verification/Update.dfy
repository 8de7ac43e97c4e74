/**
 * Set and Remove on a tree, with rotations and rebalancing. Every function works on fresh clones,
 * so a node that was already written to the store is either kept whole or dropped.
 */
module Update {
  import opened Base
  import opened Trees

  datatype Error = CloneLeaf | PersistedNode | MissingChild

  /** What `recursiveSet` returns: the replacement and whether an existing key was overwritten. */
  datatype Updated = Updated(node: Node, updated: bool)

  /** What `recursiveRemove` returns; `newKey` is the new least key when the old one went away. */
  datatype Removal = Removal(newSelf: Option<Node>, newKey: Option<Bytes>, value: Option<Bytes>, removed: bool)

  /** A copy of an inner node that has not been written yet. */
  function Unsaved(n: Node): (r: Node)
    requires n.Inner?
    ensures r.Inner? && r.nk == None
  {
    Inner(None, n.key, n.height, n.size, n.left, n.right)
  }

  function Clone(n: Node): Result<Node, Error> {
    if n.Leaf? then Err(CloneLeaf) else Ok(Unsaved(n))
  }

  function CalcHeightAndSize(n: Node): Node
    requires n.Inner?
  {
    n.(height := Max(Height(n.left), Height(n.right)) + 1, size := Size(n.left) + Size(n.right))
  }

  function CalcBalance(n: Node): Result<int, Error> {
    if n.Leaf? then Err(MissingChild) else Ok(Lean(n))
  }

  function RotateRight(n: Node): Result<Node, Error> {
    var node :- Clone(n);
    var newNode :- Clone(node.left);
    var lowered := CalcHeightAndSize(node.(left := newNode.right));
    Ok(CalcHeightAndSize(newNode.(right := lowered)))
  }

  function RotateLeft(n: Node): Result<Node, Error> {
    var node :- Clone(n);
    var newNode :- Clone(node.right);
    var lowered := CalcHeightAndSize(node.(right := newNode.left));
    Ok(CalcHeightAndSize(newNode.(left := lowered)))
  }

  function Balance(n: Node): Result<Node, Error> {
    if n.nk.Some? then
      Err(PersistedNode)
    else
      var balance :- CalcBalance(n);
      if balance > 1 then
        var leftBalance :- CalcBalance(n.left);
        if leftBalance >= 0 then
          RotateRight(n)
        else
          var newLeft :- RotateLeft(n.left);
          RotateRight(n.(left := newLeft))
      else if balance < -1 then
        var rightBalance :- CalcBalance(n.right);
        if rightBalance <= 0 then
          RotateLeft(n)
        else
          var newRight :- RotateRight(n.right);
          RotateLeft(n.(right := newRight))
      else
        Ok(n)
  }

  function NewLeaf(key: Bytes, value: Bytes): Node {
    Leaf(None, key, value)
  }

  function SetLeaf(leaf: Node, key: Bytes, value: Bytes): Updated
    requires leaf.Leaf?
  {
    if Less(key, leaf.key) then
      Updated(Inner(None, leaf.key, 1, 2, NewLeaf(key, value), leaf), false)
    else if Less(leaf.key, key) then
      Updated(Inner(None, key, 1, 2, leaf, NewLeaf(key, value)), false)
    else
      Updated(NewLeaf(key, value), true)
  }

  function RecursiveSet(n: Node, key: Bytes, value: Bytes): Result<Updated, Error> {
    if n.Leaf? then
      Ok(SetLeaf(n, key, value))
    else
      var node :- Clone(n);
      var child :- RecursiveSet(if Less(key, n.key) then n.left else n.right, key, value);
      var self := if Less(key, n.key) then node.(left := child.node) else node.(right := child.node);
      if child.updated then
        Ok(Updated(self, true))
      else
        var balanced :- Balance(CalcHeightAndSize(self));
        Ok(Updated(balanced, false))
  }

  function RecursiveRemove(n: Node, key: Bytes): Result<Removal, Error> {
    if n.Leaf? then
      Ok(if key == n.key then Removal(None, None, Some(n.value), true) else Removal(Some(n), None, None, false))
    else
      var node :- Clone(n);
      if Less(key, n.key) then
        var r :- RecursiveRemove(n.left, key);
        if !r.removed then
          Ok(Removal(Some(node), None, r.value, false))
        else if r.newSelf.None? then
          Ok(Removal(Some(node.right), Some(node.key), r.value, true))
        else
          var balanced :- Balance(CalcHeightAndSize(node.(left := r.newSelf.value)));
          Ok(Removal(Some(balanced), r.newKey, r.value, true))
      else
        var r :- RecursiveRemove(n.right, key);
        if !r.removed then
          Ok(Removal(Some(node), None, r.value, false))
        else if r.newSelf.None? then
          Ok(Removal(Some(node.left), None, r.value, true))
        else
          var self := node.(right := r.newSelf.value, key := if r.newKey.Some? then r.newKey.value else node.key);
          var balanced :- Balance(CalcHeightAndSize(self));
          Ok(Removal(Some(balanced), None, r.value, true))
  }

  // ----- The working tree: possibly empty -----

  function Set(root: Option<Node>, key: Bytes, value: Bytes): Result<Updated, Error> {
    if root.None? then Ok(Updated(NewLeaf(key, value), false)) else RecursiveSet(root.value, key, value)
  }

  function Remove(root: Option<Node>, key: Bytes): Result<Removal, Error> {
    if root.None? then Ok(Removal(None, None, None, false)) else RecursiveRemove(root.value, key)
  }

  predicate AvlRoot(root: Option<Node>) {
    root.Some? ==> Avl(root.value)
  }

  function RootLeafMap(root: Option<Node>): map<Bytes, Node> {
    if root.None? then map[] else LeafMap(root.value)
  }

  function RootModel(root: Option<Node>): map<Bytes, Bytes> {
    if root.None? then map[] else Model(root.value)
  }

  // ----- Rebalancing -----

  /** An inner node whose subtrees are AVL trees that may have drifted two levels apart. */
  predicate Drifted(n: Node) {
    n.Inner? && n.nk == None && Ordered(n) && Measured(n) && Balanced(n.left) && Balanced(n.right) && -2 <= Lean(n) <= 2
  }

  /** Same leaves, hence same bounds, as before. */
  predicate SameLeaves(m: Node, n: Node) {
    LeafMap(m) == LeafMap(n) && MinKey(m) == MinKey(n) && MaxKey(m) == MaxKey(n) && Size(m) == Size(n)
  }

  lemma {:induction false} RotateRightKeepsOrder(n: Node)
    requires n.Inner? && n.left.Inner? && Ordered(n) && Measured(n)
    ensures RotateRight(n).Ok? && RotateRight(n).value.Inner? && RotateRight(n).value.nk == None
    ensures Ordered(RotateRight(n).value) && Measured(RotateRight(n).value)
    ensures SameLeaves(RotateRight(n).value, n)
  {
    var a, b, c := LeafMap(n.left.left), LeafMap(n.left.right), LeafMap(n.right);
    assert (a + b) + c == a + (b + c);
  }

  lemma {:induction false} RotateLeftKeepsOrder(n: Node)
    requires n.Inner? && n.right.Inner? && Ordered(n) && Measured(n)
    ensures RotateLeft(n).Ok? && RotateLeft(n).value.Inner? && RotateLeft(n).value.nk == None
    ensures Ordered(RotateLeft(n).value) && Measured(RotateLeft(n).value)
    ensures SameLeaves(RotateLeft(n).value, n)
  {
    var a, b, c := LeafMap(n.left), LeafMap(n.right.left), LeafMap(n.right.right);
    assert (a + b) + c == a + (b + c);
  }

  lemma {:induction false} LeftLeftCase(n: Node)
    requires Drifted(n) && Lean(n) == 2 && n.left.Inner? && Lean(n.left) >= 0
    ensures RotateRight(n).Ok? && Restored(n, RotateRight(n).value)
  {
    RotateRightKeepsOrder(n);
    assert Measured(n.left) && Balanced(n.left);
    assert Balanced(RotateRight(n).value.right);
  }

  lemma {:induction false} RightRightCase(n: Node)
    requires Drifted(n) && Lean(n) == -2 && n.right.Inner? && Lean(n.right) <= 0
    ensures RotateLeft(n).Ok? && Restored(n, RotateLeft(n).value)
  {
    RotateLeftKeepsOrder(n);
    assert Measured(n.right) && Balanced(n.right);
    assert Balanced(RotateLeft(n).value.left);
  }

  lemma {:induction false} LeftRightCase(n: Node)
    requires Drifted(n) && Lean(n) == 2 && n.left.Inner? && n.left.right.Inner? && Lean(n.left) < 0
    ensures RotateLeft(n.left).Ok? && RotateRight(n.(left := RotateLeft(n.left).value)).Ok?
    ensures Restored(n, RotateRight(n.(left := RotateLeft(n.left).value)).value)
  {
    RotateLeftKeepsOrder(n.left);
    var m := CalcHeightAndSize(n.(left := RotateLeft(n.left).value));
    RotateRightKeepsOrder(m);
    assert Measured(n.left) && Measured(n.left.right) && Balanced(n.left.right);
    assert Balanced(RotateRight(m).value.left) && Balanced(RotateRight(m).value.right);
  }

  lemma {:induction false} RightLeftCase(n: Node)
    requires Drifted(n) && Lean(n) == -2 && n.right.Inner? && n.right.left.Inner? && Lean(n.right) > 0
    ensures RotateRight(n.right).Ok? && RotateLeft(n.(right := RotateRight(n.right).value)).Ok?
    ensures Restored(n, RotateLeft(n.(right := RotateRight(n.right).value)).value)
  {
    RotateRightKeepsOrder(n.right);
    var m := CalcHeightAndSize(n.(right := RotateRight(n.right).value));
    RotateLeftKeepsOrder(m);
    assert Measured(n.right) && Measured(n.right.left) && Balanced(n.right.left);
    assert Balanced(RotateLeft(m).value.left) && Balanced(RotateLeft(m).value.right);
  }

  /** An AVL tree over the same leaves, at most one level lower. */
  ghost predicate Restored(n: Node, r: Node) {
    r.Inner? && r.nk == None && Avl(r) && SameLeaves(r, n) && Height(n) - 1 <= r.height <= Height(n)
  }

  /** `balance` never fails on a drifted node, and rebalances it in all four rotation cases. */
  lemma {:induction false} BalanceRestores(n: Node)
    requires Drifted(n)
    ensures Balance(n).Ok? && Restored(n, Balance(n).value)
    ensures -1 <= Lean(n) <= 1 ==> Balance(n).value == n
  {
    MeasuredBounds(n.left);
    MeasuredBounds(n.right);
    if Lean(n) > 1 {
      MeasuredBounds(n.left.left);
      MeasuredBounds(n.left.right);
      if Lean(n.left) < 0 {
        LeftRightCase(n);
      } else {
        LeftLeftCase(n);
      }
    } else if Lean(n) < -1 {
      MeasuredBounds(n.right.left);
      MeasuredBounds(n.right.right);
      if Lean(n.right) > 0 {
        RightLeftCase(n);
      } else {
        RightRightCase(n);
      }
    }
  }

  // ----- Set -----

  function LeastOf(a: Bytes, b: Bytes): Bytes {
    if Less(a, b) then a else b
  }

  function GreatestOf(a: Bytes, b: Bytes): Bytes {
    if Less(a, b) then b else a
  }

  /** What a set of `key` in an AVL tree leaves behind. */
  ghost predicate SetIn(n: Node, key: Bytes, value: Bytes, r: Updated) {
    && Avl(r.node) && r.node.nk == None
    && LeafMap(r.node) == LeafMap(n)[key := NewLeaf(key, value)]
    && r.updated == (key in LeafMap(n))
    && MinKey(r.node) == LeastOf(key, MinKey(n))
    && MaxKey(r.node) == GreatestOf(key, MaxKey(n))
    && Size(r.node) == Size(n) + (if r.updated then 0 else 1)
    && Height(n) <= Height(r.node) <= Height(n) + 1
    && (r.updated ==> Height(r.node) == Height(n))
  }

  lemma {:induction false} SetLeafCorrect(leaf: Node, key: Bytes, value: Bytes)
    requires leaf.Leaf?
    ensures SetIn(leaf, key, value, SetLeaf(leaf, key, value))
  {
    Trichotomy(key, leaf.key);
    var added := NewLeaf(key, value);
    assert Avl(leaf) && Avl(added) && MinKey(added) == MaxKey(added) == key;
    if Less(key, leaf.key) {
      assert LeafMap(Inner(None, leaf.key, 1, 2, added, leaf)) == LeafMap(leaf)[key := added];
    } else if Less(leaf.key, key) {
      assert LeafMap(Inner(None, key, 1, 2, leaf, added)) == LeafMap(leaf)[key := added];
    }
  }

  /** `recursiveSet` never fails on an AVL tree, writes exactly one leaf and keeps the tree AVL. */
  lemma {:induction false} RecursiveSetCorrect(n: Node, key: Bytes, value: Bytes)
    requires Avl(n)
    ensures RecursiveSet(n, key, value).Ok?
    ensures SetIn(n, key, value, RecursiveSet(n, key, value).value)
  {
    if n.Leaf? {
      SetLeafCorrect(n, key, value);
    } else if Less(key, n.key) {
      RecursiveSetCorrect(n.left, key, value);
      SetLeft(n, key, value);
    } else {
      RecursiveSetCorrect(n.right, key, value);
      SetRight(n, key, value);
    }
  }

  /** A node rebuilt after one of its subtrees gained a leaf, before rebalancing. */
  ghost predicate Grown(n: Node, key: Bytes, value: Bytes, self: Node) {
    && Drifted(self) && LeafMap(self) == LeafMap(n)[key := NewLeaf(key, value)] && key !in LeafMap(n)
    && MinKey(self) == LeastOf(key, MinKey(n)) && MaxKey(self) == GreatestOf(key, MaxKey(n))
    && Size(self) == Size(n) + 1 && Height(n) <= Height(self) <= Height(n) + 1
    && (Height(self) == Height(n) ==> -1 <= Lean(self) <= 1)
  }

  /** Rebalancing what grew completes the set. */
  lemma {:induction false} GrownRebalances(n: Node, key: Bytes, value: Bytes, self: Node)
    requires Grown(n, key, value, self)
    ensures Balance(self).Ok? && SetIn(n, key, value, Updated(Balance(self).value, false))
  {
    BalanceRestores(self);
  }

  lemma {:induction false} KeyOnLeft(n: Node, key: Bytes)
    requires Ordered(n) && n.Inner? && Less(key, n.key)
    ensures key !in LeafMap(n.right) && Less(key, MaxKey(n))
  {
    Separated(n);
    Trichotomy(key, n.key);
    KeysWithinBounds(n.right);
    if MaxKey(n) != n.key {
      Transitive(key, n.key, MaxKey(n));
    }
  }

  lemma {:induction false} KeyOnRight(n: Node, key: Bytes)
    requires Ordered(n) && n.Inner? && !Less(key, n.key)
    ensures key !in LeafMap(n.left) && !Less(key, MinKey(n))
  {
    Separated(n);
    KeysWithinBounds(n.left);
    if Less(key, MinKey(n)) {
      Transitive(key, MinKey(n), n.key);
    }
  }

  lemma {:induction false} LeftUpdated(n: Node, key: Bytes, value: Bytes, child: Updated)
    requires Avl(n) && n.Inner? && Less(key, n.key) && SetIn(n.left, key, value, child) && child.updated
    ensures SetIn(n, key, value, Updated(Inner(None, n.key, n.height, n.size, child.node, n.right), true))
  {
    KeyOnLeft(n, key);
  }

  lemma {:induction false} LeftGrown(n: Node, key: Bytes, value: Bytes, child: Updated)
    requires Avl(n) && n.Inner? && Less(key, n.key) && SetIn(n.left, key, value, child) && !child.updated
    ensures Grown(n, key, value, CalcHeightAndSize(Inner(None, n.key, n.height, n.size, child.node, n.right)))
  {
    KeyOnLeft(n, key);
  }

  lemma {:induction false} SetLeft(n: Node, key: Bytes, value: Bytes)
    requires Avl(n) && n.Inner? && Less(key, n.key)
    requires RecursiveSet(n.left, key, value).Ok? && SetIn(n.left, key, value, RecursiveSet(n.left, key, value).value)
    ensures RecursiveSet(n, key, value).Ok? && SetIn(n, key, value, RecursiveSet(n, key, value).value)
  {
    var child := RecursiveSet(n.left, key, value).value;
    if child.updated {
      LeftUpdated(n, key, value, child);
    } else {
      LeftGrown(n, key, value, child);
      GrownRebalances(n, key, value, CalcHeightAndSize(Inner(None, n.key, n.height, n.size, child.node, n.right)));
    }
  }

  lemma {:induction false} RightUpdated(n: Node, key: Bytes, value: Bytes, child: Updated)
    requires Avl(n) && n.Inner? && !Less(key, n.key) && SetIn(n.right, key, value, child) && child.updated
    ensures SetIn(n, key, value, Updated(Inner(None, n.key, n.height, n.size, n.left, child.node), true))
  {
    KeyOnRight(n, key);
  }

  lemma {:induction false} RightGrown(n: Node, key: Bytes, value: Bytes, child: Updated)
    requires Avl(n) && n.Inner? && !Less(key, n.key) && SetIn(n.right, key, value, child) && !child.updated
    ensures Grown(n, key, value, CalcHeightAndSize(Inner(None, n.key, n.height, n.size, n.left, child.node)))
  {
    KeyOnRight(n, key);
  }

  lemma {:induction false} SetRight(n: Node, key: Bytes, value: Bytes)
    requires Avl(n) && n.Inner? && !Less(key, n.key)
    requires RecursiveSet(n.right, key, value).Ok?
    requires SetIn(n.right, key, value, RecursiveSet(n.right, key, value).value)
    ensures RecursiveSet(n, key, value).Ok? && SetIn(n, key, value, RecursiveSet(n, key, value).value)
  {
    var child := RecursiveSet(n.right, key, value).value;
    if child.updated {
      RightUpdated(n, key, value, child);
    } else {
      RightGrown(n, key, value, child);
      GrownRebalances(n, key, value, CalcHeightAndSize(Inner(None, n.key, n.height, n.size, n.left, child.node)));
    }
  }

  // ----- Remove -----

  /** What a successful removal leaves behind. */
  ghost predicate RemovedFrom(n: Node, key: Bytes, r: Removal) {
    && key in LeafMap(n) && key in Model(n) && r.value == Some(Model(n)[key])
    && (r.newSelf.None? <==> n.Leaf?)
    && (r.newSelf.None? ==> r.newKey.None?)
    && (r.newSelf.Some? ==> RemovedLeaving(n, key, r.newSelf.value, r.newKey))
  }

  ghost predicate RemovedLeaving(n: Node, key: Bytes, m: Node, newKey: Option<Bytes>) {
    && Avl(m) && LeafMap(m) == LeafMap(n) - {key}
    && Size(m) == Size(n) - 1 && Height(n) - 1 <= Height(m) <= Height(n)
    && MinKey(m) == (if newKey.Some? then newKey.value else MinKey(n))
    && (newKey.Some? ==> key == MinKey(n) && Less(key, newKey.value))
    && Leq(MaxKey(m), MaxKey(n))
  }

  /** `recursiveRemove` never fails on an AVL tree, removes exactly the key and keeps the tree AVL. */
  lemma {:induction false} RecursiveRemoveCorrect(n: Node, key: Bytes)
    requires Avl(n)
    ensures RecursiveRemove(n, key).Ok?
    ensures var r := RecursiveRemove(n, key).value;
      && r.removed == (key in LeafMap(n))
      && (!r.removed ==> r == Removal(Some(if n.Leaf? then n else Unsaved(n)), None, None, false))
      && (r.removed ==> RemovedFrom(n, key, r))
  {
    LeafMapIsModel(n);
    if n.Inner? {
      Separated(n);
      Collapse(n);
      LeafMapIsModel(n.left);
      LeafMapIsModel(n.right);
      Trichotomy(key, n.key);
      if Less(key, n.key) {
        RecursiveRemoveCorrect(n.left, key);
        var r := RecursiveRemove(n.left, key).value;
        if r.removed && r.newSelf.Some? {
          RebuildLeft(n, key, r.newSelf.value, r.newKey);
        }
      } else {
        RecursiveRemoveCorrect(n.right, key);
        var r := RecursiveRemove(n.right, key).value;
        if r.removed && r.newSelf.Some? {
          RebuildRight(n, key, r.newSelf.value, r.newKey);
        }
      }
    }
  }

  /** A node rebuilt after one of its subtrees lost a leaf, before rebalancing. */
  ghost predicate Shrunk(n: Node, key: Bytes, self: Node, newKey: Option<Bytes>) {
    && Drifted(self) && LeafMap(self) == LeafMap(n) - {key}
    && Size(self) == Size(n) - 1 && Height(n) - 1 <= Height(self) <= Height(n)
    && (Height(self) == Height(n) - 1 ==> -1 <= Lean(self) <= 1)
    && MinKey(self) == (if newKey.Some? then newKey.value else MinKey(n))
    && (newKey.Some? ==> key == MinKey(n) && Less(key, newKey.value))
    && Leq(MaxKey(self), MaxKey(n))
  }

  lemma {:induction false} MapWithoutLeft(n: Node, key: Bytes)
    requires Ordered(n) && n.Inner? && key in LeafMap(n.left)
    ensures (LeafMap(n.left) - {key}) + LeafMap(n.right) == LeafMap(n) - {key}
  {
    Separated(n);
  }

  lemma {:induction false} MapWithoutRight(n: Node, key: Bytes)
    requires Ordered(n) && n.Inner? && key in LeafMap(n.right)
    ensures LeafMap(n.left) + (LeafMap(n.right) - {key}) == LeafMap(n) - {key}
  {
    Separated(n);
  }

  lemma {:induction false} LeftShrunk(n: Node, key: Bytes, m: Node, newKey: Option<Bytes>)
    requires Avl(n) && n.Inner? && key in LeafMap(n.left)
    requires RemovedLeaving(n.left, key, m, newKey)
    ensures Shrunk(n, key, CalcHeightAndSize(Inner(None, n.key, n.height, n.size, m, n.right)), newKey)
  {
    MapWithoutLeft(n, key);
    if MaxKey(m) != MaxKey(n.left) {
      Transitive(MaxKey(m), MaxKey(n.left), n.key);
    }
  }

  lemma {:induction false} RightShrunk(n: Node, key: Bytes, m: Node, newKey: Option<Bytes>)
    requires Avl(n) && n.Inner? && key in LeafMap(n.right)
    requires RemovedLeaving(n.right, key, m, newKey)
    ensures var routing := if newKey.Some? then newKey.value else n.key;
      Shrunk(n, key, CalcHeightAndSize(Inner(None, routing, n.height, n.size, n.left, m)), None)
  {
    MapWithoutRight(n, key);
    if newKey.Some? {
      Transitive(MaxKey(n.left), n.key, newKey.value);
    }
  }

  /** Rebalancing what shrank completes the removal. */
  lemma {:induction false} ShrunkRebalances(n: Node, key: Bytes, self: Node, newKey: Option<Bytes>)
    requires Shrunk(n, key, self, newKey)
    ensures Balance(self).Ok? && RemovedLeaving(n, key, Balance(self).value, newKey)
  {
    BalanceRestores(self);
  }

  /** A subtree shrank by one leaf on the left: rebuilding and rebalancing the parent removes that leaf. */
  lemma {:induction false} RebuildLeft(n: Node, key: Bytes, m: Node, newKey: Option<Bytes>)
    requires Avl(n) && n.Inner? && key in LeafMap(n.left)
    requires RemovedLeaving(n.left, key, m, newKey)
    ensures var self := CalcHeightAndSize(Inner(None, n.key, n.height, n.size, m, n.right));
      Balance(self).Ok? && RemovedLeaving(n, key, Balance(self).value, newKey)
  {
    LeftShrunk(n, key, m, newKey);
    ShrunkRebalances(n, key, CalcHeightAndSize(Inner(None, n.key, n.height, n.size, m, n.right)), newKey);
  }

  lemma {:induction false} RebuildRight(n: Node, key: Bytes, m: Node, newKey: Option<Bytes>)
    requires Avl(n) && n.Inner? && key in LeafMap(n.right)
    requires RemovedLeaving(n.right, key, m, newKey)
    ensures var routing := if newKey.Some? then newKey.value else n.key;
      var self := CalcHeightAndSize(Inner(None, routing, n.height, n.size, n.left, m));
      Balance(self).Ok? && RemovedLeaving(n, key, Balance(self).value, None)
  {
    RightShrunk(n, key, m, newKey);
    var routing := if newKey.Some? then newKey.value else n.key;
    ShrunkRebalances(n, key, CalcHeightAndSize(Inner(None, routing, n.height, n.size, n.left, m)), None);
  }

  /** A leaf child went away: its sibling takes the parent's place. */
  lemma {:induction false} Collapse(n: Node)
    requires Avl(n) && n.Inner?
    ensures n.left.Leaf? ==> RemovedLeaving(n, n.left.key, n.right, Some(n.key))
    ensures n.right.Leaf? ==> RemovedLeaving(n, n.right.key, n.left, None)
  {
    Separated(n);
    MeasuredBounds(n.left);
    MeasuredBounds(n.right);
    if n.left.Leaf? {
      assert LeafMap(n) - {n.left.key} == LeafMap(n.right);
    }
    if n.right.Leaf? {
      assert LeafMap(n) - {n.right.key} == LeafMap(n.left);
    }
  }

  // ----- The working tree as a finite map -----

  /** Set overwrites one key of the finite map, reports whether it existed, and never fails. */
  lemma {:induction false} SetIsMapUpdate(root: Option<Node>, key: Bytes, value: Bytes)
    requires AvlRoot(root)
    ensures Set(root, key, value).Ok?
    ensures var r := Set(root, key, value).value;
      && Avl(r.node) && r.node.nk == None
      && Model(r.node) == RootModel(root)[key := value]
      && LeafMap(r.node) == RootLeafMap(root)[key := NewLeaf(key, value)]
      && r.updated == (key in RootModel(root))
  {
    if root.Some? {
      RecursiveSetCorrect(root.value, key, value);
      UpdatedModel(root.value, key, value, RecursiveSet(root.value, key, value).value.node);
    }
  }

  lemma {:induction false} UpdatedModel(n: Node, key: Bytes, value: Bytes, m: Node)
    requires LeafMap(m) == LeafMap(n)[key := NewLeaf(key, value)]
    ensures Model(m) == Model(n)[key := value] && (key in LeafMap(n) <==> key in Model(n))
  {
    LeafMapIsModel(n);
    LeafMapIsModel(m);
  }

  /** Remove deletes one key of the finite map, returns its value, and never fails. */
  lemma {:induction false} RemoveIsMapDelete(root: Option<Node>, key: Bytes)
    requires AvlRoot(root)
    ensures Remove(root, key).Ok?
    ensures var r := Remove(root, key).value;
      && r.removed == (key in RootModel(root))
      && (!r.removed ==> r.value == None)
      && (r.removed ==>
            && r.value == Some(RootModel(root)[key])
            && AvlRoot(r.newSelf)
            && RootModel(r.newSelf) == RootModel(root) - {key}
            && RootLeafMap(r.newSelf) == RootLeafMap(root) - {key})
  {
    if root.Some? {
      RecursiveRemoveCorrect(root.value, key);
      LeafMapIsModel(root.value);
      var r := RecursiveRemove(root.value, key).value;
      if r.removed && r.newSelf.Some? {
        LeafMapIsModel(r.newSelf.value);
        assert Model(r.newSelf.value) == Model(root.value) - {key};
      }
    }
  }

  // ----- Copy on write -----

  /** Every node of `t` that carries a node key belongs to `base`. */
  predicate KeptFrom(t: Node, base: set<Node>) {
    if t.nk.Some? then t in base
    else t.Inner? ==> KeptFrom(t.left, base) && KeptFrom(t.right, base)
  }

  /** Like `KeptFrom`, except that an inner root itself need not belong to `base`. */
  predicate KeptBelow(t: Node, base: set<Node>) {
    if t.Leaf? then KeptFrom(t, base) else KeptFrom(t.left, base) && KeptFrom(t.right, base)
  }

  predicate Closed(base: set<Node>) {
    forall x {:trigger x.left} {:trigger x.right} ::
      x in base && x.Inner? ==> x.left in base && x.right in base && x.left.nk.Some? && x.right.nk.Some?
  }

  lemma {:induction false} KeptChildren(t: Node, base: set<Node>)
    requires KeptFrom(t, base) && Closed(base)
    ensures KeptBelow(t, base)
  {
  }

  lemma {:induction false} RotateRightKeeps(n: Node, base: set<Node>)
    requires n.Inner? && n.left.Inner? && RotateRight(n).Ok?
    requires KeptBelow(n.left, base) && KeptFrom(n.right, base)
    ensures RotateRight(n).value.Inner? && KeptBelow(RotateRight(n).value, base) && KeptFrom(RotateRight(n).value, base)
  {
  }

  lemma {:induction false} RotateLeftKeeps(n: Node, base: set<Node>)
    requires n.Inner? && n.right.Inner? && RotateLeft(n).Ok?
    requires KeptFrom(n.left, base) && KeptBelow(n.right, base)
    ensures RotateLeft(n).value.Inner? && KeptBelow(RotateLeft(n).value, base) && KeptFrom(RotateLeft(n).value, base)
  {
  }

  lemma {:induction false} BalanceLeftKeeps(n: Node, base: set<Node>)
    requires n.Inner? && KeptBelow(n, base) && Closed(base) && Balance(n).Ok? && Lean(n) > 1 && n.left.Inner?
    ensures KeptFrom(Balance(n).value, base)
  {
    KeptChildren(n.left, base);
    if Lean(n.left) >= 0 {
      RotateRightKeeps(n, base);
    } else {
      KeptChildren(n.left.right, base);
      RotateLeftKeeps(n.left, base);
      RotateRightKeeps(n.(left := RotateLeft(n.left).value), base);
    }
  }

  lemma {:induction false} BalanceRightKeeps(n: Node, base: set<Node>)
    requires n.Inner? && KeptBelow(n, base) && Closed(base) && Balance(n).Ok? && Lean(n) < -1 && n.right.Inner?
    ensures KeptFrom(Balance(n).value, base)
  {
    KeptChildren(n.right, base);
    if Lean(n.right) <= 0 {
      RotateLeftKeeps(n, base);
    } else {
      KeptChildren(n.right.left, base);
      RotateRightKeeps(n.right, base);
      RotateLeftKeeps(n.(right := RotateRight(n.right).value), base);
    }
  }

  lemma {:induction false} BalanceKeeps(n: Node, base: set<Node>)
    requires n.Inner? && KeptBelow(n, base) && Closed(base) && Balance(n).Ok?
    ensures KeptFrom(Balance(n).value, base)
  {
    if Lean(n) > 1 {
      BalanceLeftKeeps(n, base);
    } else if Lean(n) < -1 {
      BalanceRightKeeps(n, base);
    }
  }

  /** Set keeps persisted subtrees whole or drops them; in particular it always drops an inner root. */
  lemma {:induction false} SetCopiesOnWrite(n: Node, key: Bytes, value: Bytes, base: set<Node>)
    requires KeptBelow(n, base) && Closed(base) && RecursiveSet(n, key, value).Ok?
    ensures KeptFrom(RecursiveSet(n, key, value).value.node, base)
  {
    if n.Inner? {
      var side := if Less(key, n.key) then n.left else n.right;
      KeptChildren(side, base);
      SetCopiesOnWrite(side, key, value, base);
      var child := RecursiveSet(side, key, value).value;
      var l, r := if Less(key, n.key) then child.node else n.left, if Less(key, n.key) then n.right else child.node;
      if !child.updated {
        BalanceKeeps(CalcHeightAndSize(Inner(None, n.key, n.height, n.size, l, r)), base);
      }
    }
  }

  lemma {:induction false} RemoveCopiesOnWrite(n: Node, key: Bytes, base: set<Node>)
    requires KeptBelow(n, base) && Closed(base) && RecursiveRemove(n, key).Ok?
    ensures var r := RecursiveRemove(n, key).value;
      r.removed && r.newSelf.Some? ==> KeptFrom(r.newSelf.value, base)
  {
    if n.Inner? {
      var side := if Less(key, n.key) then n.left else n.right;
      KeptChildren(side, base);
      RemoveCopiesOnWrite(side, key, base);
      var child := RecursiveRemove(side, key).value;
      if child.removed && child.newSelf.Some? {
        var m := child.newSelf.value;
        var self := if Less(key, n.key)
          then Inner(None, n.key, n.height, n.size, m, n.right)
          else Inner(None, if child.newKey.Some? then child.newKey.value else n.key, n.height, n.size, n.left, m);
        BalanceKeeps(CalcHeightAndSize(self), base);
      }
    }
  }
}
