/**
 * What Set and Remove leave alone. Set reuses every subtree off the search path of its key. Remove does so too, apart
 * from the siblings that a rotation has to clone: where the path side has become two levels lower, the sibling, and its
 * near child if that is the taller one.
 */
module Sharing {
  import opened Base
  import opened Trees
  import opened Update

  function Toward(n: Node, key: Bytes): Node
    requires n.Inner?
  {
    if Less(key, n.key) then n.left else n.right
  }

  function Sibling(n: Node, key: Bytes): Node
    requires n.Inner?
  {
    if Less(key, n.key) then n.right else n.left
  }

  /** Every subtree of `n` off the search path of `key`; a leaf with another key is off the path as well. */
  function OffPath(n: Node, key: Bytes): set<Node> {
    if n.Leaf? then if n.key == key then {} else {n}
    else Nodes(Sibling(n, key)) + OffPath(Toward(n, key), key)
  }

  // ----- Rotations -----

  lemma {:induction false} RotateRightShares(n: Node)
    requires n.Inner? && n.left.Inner? && RotateRight(n).Ok?
    ensures RotateRight(n).value.Inner?
    ensures ProperNodes(n.left) + Nodes(n.right) <= ProperNodes(RotateRight(n).value)
  {
  }

  lemma {:induction false} RotateLeftShares(n: Node)
    requires n.Inner? && n.right.Inner? && RotateLeft(n).Ok?
    ensures RotateLeft(n).value.Inner?
    ensures Nodes(n.left) + ProperNodes(n.right) <= ProperNodes(RotateLeft(n).value)
  {
  }

  /** What a rebalancing to the right keeps: all but the left child, and its right child if that is the taller one. */
  lemma {:induction false} BalanceLeftShares(n: Node, r: Node)
    requires n.Inner? && Lean(n) > 1 && n.left.Inner? && Balance(n) == Ok(r)
    ensures r.Inner? && Nodes(n.right) <= ProperNodes(r)
    ensures Lean(n.left) >= 0 ==> ProperNodes(n.left) <= ProperNodes(r)
    ensures Lean(n.left) < 0 && n.left.right.Inner? ==>
      Nodes(n.left.left) + ProperNodes(n.left.right) <= ProperNodes(r)
  {
    if Lean(n.left) >= 0 {
      RotateRightShares(n);
    } else if n.left.right.Inner? {
      RotateLeftShares(n.left);
      RotateRightShares(n.(left := RotateLeft(n.left).value));
    }
  }

  lemma {:induction false} BalanceRightShares(n: Node, r: Node)
    requires n.Inner? && Lean(n) < -1 && n.right.Inner? && Balance(n) == Ok(r)
    ensures r.Inner? && Nodes(n.left) <= ProperNodes(r)
    ensures Lean(n.right) <= 0 ==> ProperNodes(n.right) <= ProperNodes(r)
    ensures Lean(n.right) > 0 && n.right.left.Inner? ==>
      ProperNodes(n.right.left) + Nodes(n.right.right) <= ProperNodes(r)
  {
    if Lean(n.right) <= 0 {
      RotateLeftShares(n);
    } else if n.right.left.Inner? {
      RotateRightShares(n.right);
      RotateLeftShares(n.(right := RotateRight(n.right).value));
    }
  }

  // ----- Set -----

  /** The node before rebalancing: the updated child beside the untouched sibling. */
  function Rebuilt(n: Node, key: Bytes, child: Node): Node
    requires n.Inner?
  {
    CalcHeightAndSize(if Less(key, n.key) then Inner(None, n.key, n.height, n.size, child, n.right)
                      else Inner(None, n.key, n.height, n.size, n.left, child))
  }

  lemma {:induction false} SetUnfolds(n: Node, key: Bytes, value: Bytes, child: Updated)
    requires n.Inner? && RecursiveSet(Toward(n, key), key, value) == Ok(child) && RecursiveSet(n, key, value).Ok?
    ensures
      var r := RecursiveSet(n, key, value).value.node;
      if child.updated then
        r == if Less(key, n.key) then Inner(None, n.key, n.height, n.size, child.node, n.right)
             else Inner(None, n.key, n.height, n.size, n.left, child.node)
      else Balance(Rebuilt(n, key, child.node)) == Ok(r)
  {
  }

  /** A rotation makes the tree one level lower, unless the child rotated up leans neither way. */
  lemma {:induction false} LeftRotationLowers(n: Node, r: Node)
    requires Drifted(n) && Lean(n) > 1 && Balance(n) == Ok(r) && n.left.Inner?
    ensures Height(r) == if Lean(n.left) == 0 then Height(n) else Height(n) - 1
  {
    assert Measured(n.left) && Balanced(n.left);
    MeasuredBounds(n.left.left);
    MeasuredBounds(n.left.right);
    MeasuredBounds(n.right);
  }

  lemma {:induction false} RightRotationLowers(n: Node, r: Node)
    requires Drifted(n) && Lean(n) < -1 && Balance(n) == Ok(r) && n.right.Inner?
    ensures Height(r) == if Lean(n.right) == 0 then Height(n) else Height(n) - 1
  {
    assert Measured(n.right) && Balanced(n.right);
    MeasuredBounds(n.right.left);
    MeasuredBounds(n.right.right);
    MeasuredBounds(n.left);
  }

  /** An inner node that grew was not rotated, and leans toward the child that grew. */
  ghost predicate GrewToward(n: Node, key: Bytes, child: Node, r: Node)
    requires n.Inner?
  {
    && r.Inner?
    && if Less(key, n.key) then r.left == child && r.right == n.right && Lean(r) > 0
       else r.left == n.left && r.right == child && Lean(r) < 0
  }

  /** What Set leaves alone, and how it grows. */
  ghost predicate SetSpares(n: Node, key: Bytes, value: Bytes) {
    && RecursiveSet(n, key, value).Ok?
    && var r := RecursiveSet(n, key, value).value.node;
       && OffPath(n, key) <= ProperNodes(r)
       && (n.Inner? && Height(r) > Height(n) ==>
             && RecursiveSet(Toward(n, key), key, value).Ok?
             && GrewToward(n, key, RecursiveSet(Toward(n, key), key, value).value.node, r))
  }

  lemma {:induction false} SetRebuilds(n: Node, key: Bytes, value: Bytes, child: Updated, self: Node)
    requires Avl(n) && n.Inner? && SetIn(Toward(n, key), key, value, child) && !child.updated
    requires self == Rebuilt(n, key, child.node)
    ensures Drifted(self) && Balance(self).Ok? && Height(n) <= Height(self)
  {
    if Less(key, n.key) {
      LeftGrown(n, key, value, child);
    } else {
      RightGrown(n, key, value, child);
    }
    GrownRebalances(n, key, value, self);
  }

  /** A new leaf on the left has made the left side too high. */
  lemma {:induction false} SetRotatesLeft(n: Node, key: Bytes, value: Bytes, child: Updated, self: Node, r: Node)
    requires Avl(n) && n.Inner? && Less(key, n.key) && RecursiveSet(n.left, key, value) == Ok(child)
    requires SetIn(n.left, key, value, child) && !child.updated && self == Rebuilt(n, key, child.node)
    requires SetSpares(n.left, key, value) && (n.left.Inner? ==> SetSpares(Toward(n.left, key), key, value))
    requires Drifted(self) && Lean(self) > 1 && Balance(self) == Ok(r)
    ensures OffPath(n, key) <= ProperNodes(r) && Height(r) == Height(self) - 1
  {
    MeasuredBounds(n.left);
    MeasuredBounds(n.right);
    BalanceLeftShares(self, r);
    LeftRotationLowers(self, r);
  }

  lemma {:induction false} SetRotatesRight(n: Node, key: Bytes, value: Bytes, child: Updated, self: Node, r: Node)
    requires Avl(n) && n.Inner? && !Less(key, n.key) && RecursiveSet(n.right, key, value) == Ok(child)
    requires SetIn(n.right, key, value, child) && !child.updated && self == Rebuilt(n, key, child.node)
    requires SetSpares(n.right, key, value) && (n.right.Inner? ==> SetSpares(Toward(n.right, key), key, value))
    requires Drifted(self) && Lean(self) < -1 && Balance(self) == Ok(r)
    ensures OffPath(n, key) <= ProperNodes(r) && Height(r) == Height(self) - 1
  {
    MeasuredBounds(n.left);
    MeasuredBounds(n.right);
    BalanceRightShares(self, r);
    RightRotationLowers(self, r);
  }

  lemma {:induction false} SetSparesInserted(n: Node, key: Bytes, value: Bytes, child: Updated, self: Node, r: Node)
    requires Avl(n) && n.Inner? && RecursiveSet(Toward(n, key), key, value) == Ok(child)
    requires SetIn(Toward(n, key), key, value, child) && !child.updated && self == Rebuilt(n, key, child.node)
    requires SetSpares(Toward(n, key), key, value)
    requires Toward(n, key).Inner? ==> SetSpares(Toward(Toward(n, key), key), key, value)
    requires RecursiveSet(n, key, value).Ok? && r == RecursiveSet(n, key, value).value.node
    ensures SetSpares(n, key, value)
  {
    SetUnfolds(n, key, value, child);
    SetRebuilds(n, key, value, child, self);
    if Lean(self) > 1 {
      SetRotatesLeft(n, key, value, child, self, r);
    } else if Lean(self) < -1 {
      SetRotatesRight(n, key, value, child, self, r);
    } else {
      BalanceRestores(self);
    }
  }

  /** Set reuses every subtree off the search path of its key. */
  lemma {:induction false} SetShares(n: Node, key: Bytes, value: Bytes)
    requires Avl(n)
    ensures RecursiveSet(n, key, value).Ok?
    ensures OffPath(n, key) <= Nodes(RecursiveSet(n, key, value).value.node)
    ensures SetSpares(n, key, value)
  {
    RecursiveSetCorrect(n, key, value);
    if n.Leaf? {
      Trichotomy(key, n.key);
    } else {
      var side := Toward(n, key);
      RecursiveSetCorrect(side, key, value);
      SetShares(side, key, value);
      if side.Inner? {
        SetShares(Toward(side, key), key, value);
      }
      var child := RecursiveSet(side, key, value).value;
      if child.updated {
        SetUnfolds(n, key, value, child);
      } else {
        SetSparesInserted(n, key, value, child, Rebuilt(n, key, child.node), RecursiveSet(n, key, value).value.node);
      }
    }
  }

  // ----- Remove -----

  /**
   * Whether taking `key` away makes the tree one level lower: the path side gets lower, and it was the taller side, or
   * the sibling is rotated up and leans one way.
   */
  predicate Lowers(n: Node, key: Bytes)
    requires n.Inner?
  {
    var side, sibling := Toward(n, key), Sibling(n, key);
    side.Inner? ==>
      && Lowers(side, key)
      && (Height(side) > Height(sibling) || (Height(side) < Height(sibling) && sibling.Inner? && Lean(sibling) != 0))
  }

  /** The nodes beside the search path that a rotation clones: a sibling left two levels higher, or its near child. */
  function Cloned(n: Node, key: Bytes): set<Node> {
    if n.Leaf? || Toward(n, key).Leaf? then {}
    else
      var side, sibling := Toward(n, key), Sibling(n, key);
      Cloned(side, key) +
      if Lowers(side, key) && Height(side) < Height(sibling) && sibling.Inner? then
        {sibling} + (if Less(key, n.key) && Lean(sibling) > 0 then {sibling.left}
                     else if !Less(key, n.key) && Lean(sibling) < 0 then {sibling.right}
                     else {})
      else {}
  }

  ghost predicate RemoveSpares(n: Node, key: Bytes) {
    && RecursiveRemove(n, key).Ok?
    && var r := RecursiveRemove(n, key).value;
       && r.removed && (r.newSelf.Some? <==> n.Inner?)
       && (n.Inner? ==>
             && OffPath(n, key) - Cloned(n, key) <= Nodes(r.newSelf.value)
             && Height(r.newSelf.value) == if Lowers(n, key) then Height(n) - 1 else Height(n))
  }

  /** A leaf on the left has gone, and the right side is too high. */
  lemma {:induction false} RemoveRotatesLeft(n: Node, key: Bytes, m: Node, self: Node, r: Node)
    requires Avl(n) && n.Inner? && Less(key, n.key) && n.left.Inner?
    requires OffPath(n.left, key) - Cloned(n.left, key) <= Nodes(m)
    requires Height(m) == if Lowers(n.left, key) then Height(n.left) - 1 else Height(n.left)
    requires Drifted(self) && self.left == m && self.right == n.right && Lean(self) < -1 && Balance(self) == Ok(r)
    ensures OffPath(n, key) - Cloned(n, key) <= Nodes(r)
    ensures Height(r) == if Lowers(n, key) then Height(n) - 1 else Height(n)
  {
    assert Measured(n.left) && Measured(n.right) && Balanced(n.right);
    MeasuredBounds(n.left);
    MeasuredBounds(n.right);
    MeasuredBounds(n.right.left);
    MeasuredBounds(n.right.right);
    BalanceRightShares(self, r);
    RightRotationLowers(self, r);
    assert OffPath(n, key) == Nodes(n.right) + OffPath(n.left, key);
    assert Nodes(n.right) <= {n.right} + Nodes(n.right.left) + Nodes(n.right.right);
    assert Nodes(n.right) - Cloned(n, key) <= Nodes(r);
  }

  lemma {:induction false} RemoveRotatesRight(n: Node, key: Bytes, m: Node, self: Node, r: Node)
    requires Avl(n) && n.Inner? && !Less(key, n.key) && n.right.Inner?
    requires OffPath(n.right, key) - Cloned(n.right, key) <= Nodes(m)
    requires Height(m) == if Lowers(n.right, key) then Height(n.right) - 1 else Height(n.right)
    requires Drifted(self) && self.left == n.left && self.right == m && Lean(self) > 1 && Balance(self) == Ok(r)
    ensures OffPath(n, key) - Cloned(n, key) <= Nodes(r)
    ensures Height(r) == if Lowers(n, key) then Height(n) - 1 else Height(n)
  {
    assert Measured(n.left) && Measured(n.right) && Balanced(n.left);
    MeasuredBounds(n.right);
    MeasuredBounds(n.left);
    MeasuredBounds(n.left.left);
    MeasuredBounds(n.left.right);
    BalanceLeftShares(self, r);
    LeftRotationLowers(self, r);
    assert OffPath(n, key) == Nodes(n.left) + OffPath(n.right, key);
    assert Nodes(n.left) <= {n.left} + Nodes(n.left.left) + Nodes(n.left.right);
    assert Nodes(n.left) - Cloned(n, key) <= Nodes(r);
  }

  lemma {:induction false} RemoveSparesLeft(n: Node, key: Bytes, m: Node, newKey: Option<Bytes>, self: Node, r: Node)
    requires Avl(n) && n.Inner? && Less(key, n.key) && n.left.Inner? && key in LeafMap(n.left)
    requires RemovedLeaving(n.left, key, m, newKey)
    requires OffPath(n.left, key) - Cloned(n.left, key) <= Nodes(m)
    requires Height(m) == if Lowers(n.left, key) then Height(n.left) - 1 else Height(n.left)
    requires self == CalcHeightAndSize(Inner(None, n.key, n.height, n.size, m, n.right)) && Balance(self) == Ok(r)
    ensures OffPath(n, key) - Cloned(n, key) <= Nodes(r)
    ensures Height(r) == if Lowers(n, key) then Height(n) - 1 else Height(n)
  {
    LeftShrunk(n, key, m, newKey);
    if Lean(self) < -1 {
      RemoveRotatesLeft(n, key, m, self, r);
    } else {
      BalanceRestores(self);
    }
  }

  lemma {:induction false} RemoveSparesRight(n: Node, key: Bytes, m: Node, newKey: Option<Bytes>, self: Node, r: Node)
    requires Avl(n) && n.Inner? && !Less(key, n.key) && n.right.Inner? && key in LeafMap(n.right)
    requires RemovedLeaving(n.right, key, m, newKey)
    requires OffPath(n.right, key) - Cloned(n.right, key) <= Nodes(m)
    requires Height(m) == if Lowers(n.right, key) then Height(n.right) - 1 else Height(n.right)
    requires var routing := if newKey.Some? then newKey.value else n.key;
      self == CalcHeightAndSize(Inner(None, routing, n.height, n.size, n.left, m))
    requires Balance(self) == Ok(r)
    ensures OffPath(n, key) - Cloned(n, key) <= Nodes(r)
    ensures Height(r) == if Lowers(n, key) then Height(n) - 1 else Height(n)
  {
    RightShrunk(n, key, m, newKey);
    if Lean(self) > 1 {
      RemoveRotatesRight(n, key, m, self, r);
    } else {
      BalanceRestores(self);
    }
  }

  /** What a removal below an inner node leaves, before rebalancing. */
  function Shortened(n: Node, key: Bytes, m: Node, newKey: Option<Bytes>): Node
    requires n.Inner?
  {
    CalcHeightAndSize(
      if Less(key, n.key) then Inner(None, n.key, n.height, n.size, m, n.right)
      else Inner(None, if newKey.Some? then newKey.value else n.key, n.height, n.size, n.left, m))
  }

  lemma {:induction false} RemoveUnfolds(n: Node, key: Bytes, child: Removal, r: Node)
    requires n.Inner? && RecursiveRemove(Toward(n, key), key) == Ok(child) && child.removed
    requires RecursiveRemove(n, key).Ok? && RecursiveRemove(n, key).value.newSelf == Some(r)
    ensures if child.newSelf.None? then r == Sibling(n, key)
      else Balance(Shortened(n, key, child.newSelf.value, child.newKey)) == Ok(r)
  {
  }

  lemma {:induction false} RemoveSparesInner(n: Node, key: Bytes, child: Removal, r: Node)
    requires Avl(n) && n.Inner? && key in LeafMap(Toward(n, key))
    requires RecursiveRemove(Toward(n, key), key) == Ok(child) && RemovedFrom(Toward(n, key), key, child)
    requires RecursiveRemove(n, key).Ok? && RecursiveRemove(n, key).value.newSelf == Some(r)
    requires RemoveSpares(Toward(n, key), key)
    ensures OffPath(n, key) - Cloned(n, key) <= Nodes(r)
    ensures Height(r) == if Lowers(n, key) then Height(n) - 1 else Height(n)
  {
    RemoveUnfolds(n, key, child, r);
    if Toward(n, key).Leaf? {
      MeasuredBounds(n.left);
      MeasuredBounds(n.right);
    } else {
      var m := child.newSelf.value;
      if Less(key, n.key) {
        RemoveSparesLeft(n, key, m, child.newKey, Shortened(n, key, m, child.newKey), r);
      } else {
        RemoveSparesRight(n, key, m, child.newKey, Shortened(n, key, m, child.newKey), r);
      }
    }
  }

  lemma {:induction false} KeyToward(n: Node, key: Bytes)
    requires Ordered(n) && n.Inner? && key in LeafMap(n)
    ensures key in LeafMap(Toward(n, key))
  {
    Separated(n);
    Trichotomy(key, n.key);
  }

  /** Remove reuses every subtree off the search path, apart from those a rotation clones, and loses a level at most. */
  lemma {:induction false} RemoveShares(n: Node, key: Bytes)
    requires Avl(n) && key in LeafMap(n)
    ensures RecursiveRemove(n, key).Ok?
    ensures n.Inner? ==>
      var r := RecursiveRemove(n, key).value;
      && r.newSelf.Some? && OffPath(n, key) - Cloned(n, key) <= Nodes(r.newSelf.value)
      && Height(r.newSelf.value) == if Lowers(n, key) then Height(n) - 1 else Height(n)
    ensures RemoveSpares(n, key)
  {
    RecursiveRemoveCorrect(n, key);
    if n.Inner? {
      var side := Toward(n, key);
      KeyToward(n, key);
      RemoveShares(side, key);
      RecursiveRemoveCorrect(side, key);
      RemoveSparesInner(n, key, RecursiveRemove(side, key).value, RecursiveRemove(n, key).value.newSelf.value);
    }
  }
}
