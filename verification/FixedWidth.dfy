/**
 * Heights are int8 and sizes are int64 in the source. An AVL+ tree of height h has at least
 * Fib(h + 2) leaves, so a tree whose size fits int64 is at most 90 levels high; hence Set and
 * Remove computed with wrapping arithmetic agree with Set and Remove on unbounded integers.
 */
module FixedWidth {
  import opened Base
  import opened Trees
  import opened Update

  function WrapInt8(x: int): (r: int)
    ensures -128 <= r < 128
    ensures (r - x) % 256 == 0
    ensures -128 <= x < 128 ==> r == x
  {
    (x + 128) % 256 - 128
  }

  function WrapInt64(x: int): (r: int)
    ensures -TWO_63 <= r < TWO_63
    ensures (r - x) % (2 * TWO_63) == 0
    ensures -TWO_63 <= x < TWO_63 ==> r == x
  {
    (x + TWO_63) % (2 * TWO_63) - TWO_63
  }

  // ----- Fibonacci bound -----

  function Fib(n: nat): nat {
    if n < 2 then n else Fib(n - 1) + Fib(n - 2)
  }

  lemma {:induction false} FibMonotone(m: nat, n: nat)
    requires m <= n
    ensures Fib(m) <= Fib(n)
  {
    if m < n {
      FibMonotone(m, n - 1);
    }
  }

  lemma {:induction false} FibTen(n: nat)
    ensures Fib(n + 10) == 34 * Fib(n) + 55 * Fib(n + 1)
    ensures Fib(n + 11) == 55 * Fib(n) + 89 * Fib(n + 1)
  {
    assert Fib(n + 2) == Fib(n + 1) + Fib(n);
    assert Fib(n + 3) == Fib(n + 2) + Fib(n + 1);
    assert Fib(n + 4) == Fib(n + 3) + Fib(n + 2);
    assert Fib(n + 5) == Fib(n + 4) + Fib(n + 3);
    assert Fib(n + 6) == Fib(n + 5) + Fib(n + 4);
    assert Fib(n + 7) == Fib(n + 6) + Fib(n + 5);
    assert Fib(n + 8) == Fib(n + 7) + Fib(n + 6);
    assert Fib(n + 9) == Fib(n + 8) + Fib(n + 7);
  }

  lemma {:induction false} Fib93()
    ensures Fib(93) > TWO_63
  {
    FibTen(0);
    assert Fib(10) == 55 && Fib(11) == 89;
    FibTen(10);
    assert Fib(20) == 6765 && Fib(21) == 10946;
    FibTen(20);
    assert Fib(30) == 832040 && Fib(31) == 1346269;
    FibTen(30);
    assert Fib(40) == 102334155 && Fib(41) == 165580141;
    FibTen(40);
    assert Fib(50) == 12586269025 && Fib(51) == 20365011074;
    FibTen(50);
    assert Fib(60) == 1548008755920 && Fib(61) == 2504730781961;
    FibTen(60);
    assert Fib(70) == 190392490709135 && Fib(71) == 308061521170129;
    FibTen(70);
    assert Fib(80) == 23416728348467685 && Fib(81) == 37889062373143906;
    FibTen(80);
    assert Fib(90) == 2880067194370816120 && Fib(91) == 4660046610375530309;
    assert Fib(92) == Fib(91) + Fib(90);
    assert Fib(93) == Fib(92) + Fib(91);
  }

  /** An AVL+ tree of height h has at least Fib(h + 2) leaves. */
  lemma {:induction false} AtLeastFibLeaves(t: Node)
    requires Measured(t) && Balanced(t)
    ensures Height(t) >= 0 && Size(t) >= Fib(Height(t) + 2)
  {
    if t.Leaf? {
      assert Fib(2) == 1;
    } else {
      AtLeastFibLeaves(t.left);
      AtLeastFibLeaves(t.right);
      var h := t.height;
      FibMonotone(h, Height(t.left) + 2);
      FibMonotone(h, Height(t.right) + 2);
      assert Fib(h + 2) == Fib(h + 1) + Fib(h);
    }
  }

  /** A tree whose size fits int64 is at most 90 levels high. */
  lemma {:induction false} HeightAtMost90(t: Node)
    requires Measured(t) && Balanced(t) && Size(t) < TWO_63
    ensures 0 <= Height(t) <= 90
  {
    AtLeastFibLeaves(t);
    if Height(t) > 90 {
      FibMonotone(93, Height(t) + 2);
      Fib93();
    }
  }

  // ----- The same algorithms with int8 heights and int64 sizes -----

  function MachineCalc(n: Node): Node
    requires n.Inner?
  {
    Inner(n.nk, n.key,
          WrapInt8(Max(Height(n.left), Height(n.right)) + 1), WrapInt64(Size(n.left) + Size(n.right)),
          n.left, n.right)
  }

  function MachineRotateRight(n: Node): Result<Node, Error> {
    var node :- Clone(n);
    var newNode :- Clone(node.left);
    var lowered := MachineCalc(node.(left := newNode.right));
    Ok(MachineCalc(newNode.(right := lowered)))
  }

  function MachineRotateLeft(n: Node): Result<Node, Error> {
    var node :- Clone(n);
    var newNode :- Clone(node.right);
    var lowered := MachineCalc(node.(right := newNode.left));
    Ok(MachineCalc(newNode.(left := lowered)))
  }

  function MachineBalance(n: Node): Result<Node, Error> {
    if n.nk.Some? then
      Err(PersistedNode)
    else
      var balance :- CalcBalance(n);
      if balance > 1 then
        var leftBalance :- CalcBalance(n.left);
        if leftBalance >= 0 then
          MachineRotateRight(n)
        else
          var newLeft :- MachineRotateLeft(n.left);
          MachineRotateRight(n.(left := newLeft))
      else if balance < -1 then
        var rightBalance :- CalcBalance(n.right);
        if rightBalance <= 0 then
          MachineRotateLeft(n)
        else
          var newRight :- MachineRotateRight(n.right);
          MachineRotateLeft(n.(right := newRight))
      else
        Ok(n)
  }

  function MachineSet(n: Node, key: Bytes, value: Bytes): Result<Updated, Error> {
    if n.Leaf? then
      Ok(SetLeaf(n, key, value))
    else
      var node :- Clone(n);
      var child :- MachineSet(if Less(key, n.key) then n.left else n.right, key, value);
      var self := if Less(key, n.key) then node.(left := child.node) else node.(right := child.node);
      if child.updated then
        Ok(Updated(self, true))
      else
        var balanced :- MachineBalance(MachineCalc(self));
        Ok(Updated(balanced, false))
  }

  function MachineRemove(n: Node, key: Bytes): Result<Removal, Error> {
    if n.Leaf? then
      Ok(if key == n.key then Removal(None, None, Some(n.value), true) else Removal(Some(n), None, None, false))
    else
      var node :- Clone(n);
      if Less(key, n.key) then
        var r :- MachineRemove(n.left, key);
        if !r.removed then
          Ok(Removal(Some(node), None, r.value, false))
        else if r.newSelf.None? then
          Ok(Removal(Some(node.right), Some(node.key), r.value, true))
        else
          var balanced :- MachineBalance(MachineCalc(node.(left := r.newSelf.value)));
          Ok(Removal(Some(balanced), r.newKey, r.value, true))
      else
        var r :- MachineRemove(n.right, key);
        if !r.removed then
          Ok(Removal(Some(node), None, r.value, false))
        else if r.newSelf.None? then
          Ok(Removal(Some(node.left), None, r.value, true))
        else
          var self := node.(right := r.newSelf.value, key := if r.newKey.Some? then r.newKey.value else node.key);
          var balanced :- MachineBalance(MachineCalc(self));
          Ok(Removal(Some(balanced), None, r.value, true))
  }

  /** Within `h` levels, with a size that fits int64. */
  predicate Within(n: Node, h: int) {
    0 <= Height(n) <= h && 1 <= Size(n) < TWO_63
  }

  predicate ChildrenWithin(n: Node, h: int) {
    n.Inner? ==> Within(n.left, h) && Within(n.right, h) && Size(n) == Size(n.left) + Size(n.right) < TWO_63
  }

  lemma {:induction false} RotationsDoNotWrap(n: Node, h: int)
    requires n.Inner? && h <= 100 && ChildrenWithin(n, h) && ChildrenWithin(n.left, h) && ChildrenWithin(n.right, h)
    ensures MachineRotateRight(n) == RotateRight(n)
    ensures MachineRotateLeft(n) == RotateLeft(n)
    ensures RotateRight(n).Ok? ==> Size(RotateRight(n).value) == Size(n) && Within(RotateRight(n).value, h + 2)
    ensures RotateLeft(n).Ok? ==> Size(RotateLeft(n).value) == Size(n) && Within(RotateLeft(n).value, h + 2)
    ensures RotateRight(n).Ok? ==> ChildrenWithin(RotateRight(n).value, h + 2)
    ensures RotateLeft(n).Ok? ==> ChildrenWithin(RotateLeft(n).value, h + 2)
  {
  }

  lemma {:induction false} AvlWithin(n: Node)
    requires Measured(n) && Balanced(n) && Size(n) < TWO_63
    ensures Within(n, 90) && ChildrenWithin(n, 90)
  {
    HeightAtMost90(n);
    MeasuredBounds(n);
    if n.Inner? {
      MeasuredBounds(n.left);
      MeasuredBounds(n.right);
      HeightAtMost90(n.left);
      HeightAtMost90(n.right);
    }
  }

  lemma {:induction false} BalanceDoesNotWrap(n: Node)
    requires Drifted(n) && Size(n) < TWO_63
    ensures MachineBalance(n) == Balance(n)
  {
    MeasuredBounds(n.left);
    MeasuredBounds(n.right);
    AvlWithin(n.left);
    AvlWithin(n.right);
    RotationsDoNotWrap(n, 90);
    if Lean(n) > 1 && Lean(n.left) < 0 {
      LeftRightDoesNotWrap(n);
    } else if Lean(n) < -1 && Lean(n.right) > 0 {
      RightLeftDoesNotWrap(n);
    }
  }

  lemma {:induction false} LeftRightDoesNotWrap(n: Node)
    requires Drifted(n) && Size(n) < TWO_63 && n.left.Inner? && Lean(n) > 1 && Lean(n.left) < 0
    ensures MachineRotateLeft(n.left) == RotateLeft(n.left) && RotateLeft(n.left).Ok?
    ensures var m := n.(left := RotateLeft(n.left).value); MachineRotateRight(m) == RotateRight(m)
  {
    MeasuredBounds(n.left);
    MeasuredBounds(n.right);
    AvlWithin(n.left);
    AvlWithin(n.right);
    MeasuredBounds(n.left.left);
    AvlWithin(n.left.left);
    AvlWithin(n.left.right);
    RotationsDoNotWrap(n.left, 90);
    RotationsDoNotWrap(n.(left := RotateLeft(n.left).value), 92);
  }

  lemma {:induction false} RightLeftDoesNotWrap(n: Node)
    requires Drifted(n) && Size(n) < TWO_63 && n.right.Inner? && Lean(n) < -1 && Lean(n.right) > 0
    ensures MachineRotateRight(n.right) == RotateRight(n.right) && RotateRight(n.right).Ok?
    ensures var m := n.(right := RotateRight(n.right).value); MachineRotateLeft(m) == RotateLeft(m)
  {
    MeasuredBounds(n.left);
    MeasuredBounds(n.right);
    AvlWithin(n.left);
    AvlWithin(n.right);
    MeasuredBounds(n.right.right);
    AvlWithin(n.right.left);
    AvlWithin(n.right.right);
    RotationsDoNotWrap(n.right, 90);
    RotationsDoNotWrap(n.(right := RotateRight(n.right).value), 92);
  }

  lemma {:induction false} RebuildDoesNotWrap(n: Node)
    requires n.Inner? && n.nk == None && Ordered(n) && Avl(n.left) && Avl(n.right) && -2 <= Lean(n) <= 2
    requires Size(n.left) + Size(n.right) < TWO_63
    ensures MachineCalc(n) == CalcHeightAndSize(n)
    ensures MachineBalance(MachineCalc(n)) == Balance(CalcHeightAndSize(n))
  {
    MeasuredBounds(n.left);
    MeasuredBounds(n.right);
    AvlWithin(n.left);
    AvlWithin(n.right);
    BalanceDoesNotWrap(CalcHeightAndSize(n));
  }

  /** Set with int8 heights and int64 sizes is Set, on every AVL tree that has room for one more leaf. */
  lemma {:induction false} SetDoesNotWrap(n: Node, key: Bytes, value: Bytes)
    requires Avl(n) && Size(n) + 1 < TWO_63
    ensures MachineSet(n, key, value) == RecursiveSet(n, key, value)
  {
    if n.Inner? {
      MeasuredBounds(n.left);
      MeasuredBounds(n.right);
      var side := if Less(key, n.key) then n.left else n.right;
      SetDoesNotWrap(side, key, value);
      RecursiveSetCorrect(side, key, value);
      var child := RecursiveSet(side, key, value).value;
      if !child.updated {
        if Less(key, n.key) {
          RebuildDoesNotWrap(Inner(None, n.key, n.height, n.size, child.node, n.right));
        } else {
          RebuildDoesNotWrap(Inner(None, n.key, n.height, n.size, n.left, child.node));
        }
      }
    }
  }

  /** Overwriting a key recomputes neither heights nor sizes. */
  lemma {:induction false} OverwriteDoesNotWrap(n: Node, key: Bytes, value: Bytes)
    requires Avl(n) && key in LeafMap(n)
    ensures MachineSet(n, key, value) == RecursiveSet(n, key, value)
  {
    if n.Inner? {
      Separated(n);
      Trichotomy(key, n.key);
      var side := if Less(key, n.key) then n.left else n.right;
      OverwriteDoesNotWrap(side, key, value);
      RecursiveSetCorrect(side, key, value);
    }
  }

  lemma {:induction false} BalanceFits(n: Node)
    requires n.Inner? && -128 <= n.height < 128 && -TWO_63 <= n.size < TWO_63 && MachineBalance(n).Ok?
    ensures -128 <= Height(MachineBalance(n).value) < 128 && -TWO_63 <= Size(MachineBalance(n).value) < TWO_63
  {
  }

  /** Whatever the tree, the height and the size that a new leaf leaves behind fit their types. */
  lemma {:induction false} InsertFits(n: Node, key: Bytes, value: Bytes)
    requires n.Inner? && MachineSet(n, key, value).Ok? && !MachineSet(n, key, value).value.updated
    ensures -128 <= Height(MachineSet(n, key, value).value.node) < 128
    ensures -TWO_63 <= Size(MachineSet(n, key, value).value.node) < TWO_63
  {
    var child := MachineSet(if Less(key, n.key) then n.left else n.right, key, value).value;
    var node := Inner(None, n.key, n.height, n.size, n.left, n.right);
    var self := if Less(key, n.key) then node.(left := child.node) else node.(right := child.node);
    BalanceFits(MachineCalc(self));
  }

  /** Set in int8 and int64 goes wrong exactly when the tree is full and the key is new. */
  lemma {:induction false} SetWrapsExactly(n: Node, key: Bytes, value: Bytes)
    requires Avl(n) && Size(n) < TWO_63
    ensures MachineSet(n, key, value) == RecursiveSet(n, key, value) <==> Size(n) + 1 < TWO_63 || key in LeafMap(n)
  {
    RecursiveSetCorrect(n, key, value);
    if key in LeafMap(n) {
      OverwriteDoesNotWrap(n, key, value);
    } else if Size(n) + 1 < TWO_63 {
      SetDoesNotWrap(n, key, value);
    } else if MachineSet(n, key, value) == RecursiveSet(n, key, value) {
      InsertFits(n, key, value);
    }
  }

  /** Remove with int8 heights and int64 sizes is Remove, on every AVL tree whose size fits int64. */
  lemma {:induction false} RemoveDoesNotWrap(n: Node, key: Bytes)
    requires Avl(n) && Size(n) < TWO_63
    ensures MachineRemove(n, key) == RecursiveRemove(n, key)
  {
    if n.Inner? {
      MeasuredBounds(n.left);
      MeasuredBounds(n.right);
      var side := if Less(key, n.key) then n.left else n.right;
      RemoveDoesNotWrap(side, key);
      RecursiveRemoveCorrect(side, key);
      var child := RecursiveRemove(side, key).value;
      if child.removed && child.newSelf.Some? {
        var m := child.newSelf.value;
        if Less(key, n.key) {
          if MaxKey(m) != MaxKey(n.left) {
            Transitive(MaxKey(m), MaxKey(n.left), n.key);
          }
          RebuildDoesNotWrap(Inner(None, n.key, n.height, n.size, m, n.right));
        } else {
          var routing := if child.newKey.Some? then child.newKey.value else n.key;
          if child.newKey.Some? {
            Transitive(MaxKey(n.left), n.key, routing);
          }
          RebuildDoesNotWrap(Inner(None, routing, n.height, n.size, n.left, m));
        }
      }
    }
  }
}
