/** The delayed-node traversal behind range iteration and export, and the leaf iterator on top of it. */
module Traversal {
  import opened Base
  import opened Trees

  /** Domain and direction of a traversal. */
  datatype Plan = Plan(start: Option<Bytes>, end: Option<Bytes>, ascending: bool, inclusive: bool, post: bool)

  predicate AfterStart(p: Plan, key: Bytes) {
    p.start.None? || Less(p.start.value, key)
  }

  predicate StartOrAfter(p: Plan, key: Bytes) {
    AfterStart(p, key) || p.start == Some(key)
  }

  predicate BeforeEnd(p: Plan, key: Bytes) {
    p.end.None? || Less(key, p.end.value) || (p.inclusive && p.end == Some(key))
  }

  predicate InRange(p: Plan, key: Bytes) {
    StartOrAfter(p, key) && BeforeEnd(p, key)
  }

  /** The nodes visited at and below `t`, in order. */
  function Visit(p: Plan, t: Node): seq<Node>
    decreases t, 2
  {
    if t.Leaf? then
      if InRange(p, t.key) then [t] else []
    else if p.post then Below(p, t) + [t]
    else [t] + Below(p, t)
  }

  function Below(p: Plan, t: Node): seq<Node>
    requires t.Inner?
    decreases t, 1
  {
    if p.ascending then VisitLeft(p, t) + VisitRight(p, t) else VisitRight(p, t) + VisitLeft(p, t)
  }

  function VisitLeft(p: Plan, t: Node): seq<Node>
    requires t.Inner?
    decreases t, 0
  {
    if AfterStart(p, t.key) then Visit(p, t.left) else []
  }

  function VisitRight(p: Plan, t: Node): seq<Node>
    requires t.Inner?
    decreases t, 0
  {
    if BeforeEnd(p, t.key) then Visit(p, t.right) else []
  }

  /** A node still to expand (`delayed`), or one whose children are done and that is returned as it is. */
  datatype Delayed = Delayed(node: Node, delayed: bool)

  function Promised(p: Plan, d: Delayed): seq<Node> {
    if d.delayed then Visit(p, d.node) else [d.node]
  }

  /** Everything a stack of delayed nodes will still produce; the top is at the end. */
  function Pending(p: Plan, stack: seq<Delayed>): seq<Node> {
    if stack == [] then []
    else Promised(p, stack[|stack| - 1]) + Pending(p, stack[..|stack| - 1])
  }

  function Weight(d: Delayed): nat {
    if d.delayed then 2 * NodeCount(d.node) else 1
  }

  function StackWeight(stack: seq<Delayed>): nat {
    if stack == [] then 0 else Weight(stack[|stack| - 1]) + StackWeight(stack[..|stack| - 1])
  }

  lemma {:induction false} PushPending(p: Plan, stack: seq<Delayed>, d: Delayed)
    ensures Pending(p, stack + [d]) == Promised(p, d) + Pending(p, stack)
    ensures StackWeight(stack + [d]) == Weight(d) + StackWeight(stack)
  {
    assert (stack + [d])[..|stack|] == stack;
  }

  function PushIf(stack: seq<Delayed>, d: Delayed, push: bool): seq<Delayed> {
    if push then stack + [d] else stack
  }

  lemma {:induction false} PushIfPending(p: Plan, stack: seq<Delayed>, d: Delayed, push: bool)
    ensures Pending(p, PushIf(stack, d, push)) == (if push then Promised(p, d) else []) + Pending(p, stack)
    ensures StackWeight(PushIf(stack, d, push)) <= Weight(d) + StackWeight(stack)
  {
    if push {
      PushPending(p, stack, d);
    } else {
      assert [] + Pending(p, stack) == Pending(p, stack);
    }
  }

  predicate Returned(p: Plan, t: Node) {
    t.Inner? || InRange(p, t.key)
  }

  /** Pushes the children to descend into; the one to visit first goes on top. */
  function PushChildren(p: Plan, s: seq<Delayed>, t: Node): seq<Delayed>
    requires t.Inner?
  {
    if p.ascending then
      PushIf(PushIf(s, Delayed(t.right, true), BeforeEnd(p, t.key)), Delayed(t.left, true), AfterStart(p, t.key))
    else
      PushIf(PushIf(s, Delayed(t.left, true), AfterStart(p, t.key)), Delayed(t.right, true), BeforeEnd(p, t.key))
  }

  /** The stack after popping a delayed node and pushing what its expansion needs. */
  function Expand(p: Plan, stack: seq<Delayed>, t: Node): seq<Delayed> {
    var s := PushIf(stack, Delayed(t, false), p.post && Returned(p, t));
    if t.Leaf? then s else PushChildren(p, s, t)
  }

  lemma {:induction false} TwoPushesPending(p: Plan, s: seq<Delayed>, d: Delayed, b: bool, e: Delayed, c: bool)
    ensures Pending(p, PushIf(PushIf(s, d, b), e, c))
      == ((if c then Promised(p, e) else []) + (if b then Promised(p, d) else [])) + Pending(p, s)
    ensures StackWeight(PushIf(PushIf(s, d, b), e, c)) <= Weight(d) + Weight(e) + StackWeight(s)
  {
    PushIfPending(p, s, d, b);
    var s1 := PushIf(s, d, b);
    PushIfPending(p, s1, e, c);
    Regroup(if c then Promised(p, e) else [], if b then Promised(p, d) else [], Pending(p, s));
  }

  lemma {:induction false} ChildrenPending(p: Plan, s: seq<Delayed>, t: Node)
    requires t.Inner?
    ensures Pending(p, PushChildren(p, s, t)) == Below(p, t) + Pending(p, s)
    ensures StackWeight(PushChildren(p, s, t)) <= 2 * NodeCount(t) - 2 + StackWeight(s)
  {
    if p.ascending {
      TwoPushesPending(p, s, Delayed(t.right, true), BeforeEnd(p, t.key), Delayed(t.left, true), AfterStart(p, t.key));
    } else {
      TwoPushesPending(p, s, Delayed(t.left, true), AfterStart(p, t.key), Delayed(t.right, true), BeforeEnd(p, t.key));
    }
  }

  lemma {:induction false} ExpandedPending(p: Plan, stack: seq<Delayed>, t: Node)
    requires t.Inner?
    ensures Pending(p, Expand(p, stack, t)) == Below(p, t) + ((if p.post then [t] else []) + Pending(p, stack))
    ensures StackWeight(Expand(p, stack, t)) < 2 * NodeCount(t) + StackWeight(stack)
  {
    PushIfPending(p, stack, Delayed(t, false), p.post && Returned(p, t));
    ChildrenPending(p, PushIf(stack, Delayed(t, false), p.post && Returned(p, t)), t);
  }

  lemma {:induction false} LeafPromise(p: Plan, stack: seq<Delayed>, t: Node)
    requires t.Leaf?
    ensures (if !p.post && Returned(p, t) then [t] else []) + Pending(p, Expand(p, stack, t)) ==
      Visit(p, t) + Pending(p, stack)
    ensures StackWeight(Expand(p, stack, t)) < 2 * NodeCount(t) + StackWeight(stack)
  {
    PushIfPending(p, stack, Delayed(t, false), p.post && Returned(p, t));
    assert [] + Pending(p, Expand(p, stack, t)) == Pending(p, Expand(p, stack, t));
  }

  lemma {:induction false} InnerPromise(p: Plan, t: Node, pending: seq<Node>)
    requires t.Inner?
    ensures (if p.post then [] else [t]) + (Below(p, t) + ((if p.post then [t] else []) + pending)) ==
      Visit(p, t) + pending
  {
    assert [] + pending == pending;
    Regroup(Below(p, t), [t], pending);
    Regroup([t], Below(p, t), pending);
    assert [] + ((Below(p, t) + [t]) + pending) == (Below(p, t) + [t]) + pending;
  }

  /** Expanding keeps what is promised, except for a node that pre-order returns on the spot. */
  lemma {:induction false} ExpandKeepsPromise(p: Plan, stack: seq<Delayed>, t: Node)
    ensures (if !p.post && Returned(p, t) then [t] else []) + Pending(p, Expand(p, stack, t)) ==
      Visit(p, t) + Pending(p, stack)
    ensures StackWeight(Expand(p, stack, t)) < 2 * NodeCount(t) + StackWeight(stack)
  {
    if t.Inner? {
      ExpandedPending(p, stack, t);
      InnerPromise(p, t, Pending(p, stack));
    } else {
      LeafPromise(p, stack, t);
    }
  }

  class Walker {
    const plan: Plan
    var delayedNodes: seq<Delayed>

    /** An absent root produces nothing. */
    constructor (root: Option<Node>, plan: Plan)
      ensures this.plan == plan
      ensures Rest() == if root.None? then [] else Visit(plan, root.value)
    {
      this.plan := plan;
      delayedNodes := if root.None? then [] else [Delayed(root.value, true)];
      new;
      if root.Some? {
        PushPending(plan, [], Delayed(root.value, true));
        assert [] + [Delayed(root.value, true)] == delayedNodes;
      }
    }

    /** The nodes this traversal has yet to return. */
    function Rest(): seq<Node>
      reads this
    {
      Pending(plan, delayedNodes)
    }

    /** `traversal.next`: returns the first of the remaining nodes, or nothing at the end. */
    method Next() returns (node: Option<Node>)
      modifies this
      ensures node.None? <==> old(Rest()) == []
      ensures node.None? ==> Rest() == []
      ensures node.Some? ==> old(Rest()) == [node.value] + Rest()
    {
      while true
        invariant Rest() == old(Rest())
        decreases StackWeight(delayedNodes)
      {
        if delayedNodes == [] {
          return None;
        }
        var top := delayedNodes[|delayedNodes| - 1];
        var below := delayedNodes[..|delayedNodes| - 1];
        PushPending(plan, below, top);
        assert below + [top] == delayedNodes;
        if !top.delayed {
          delayedNodes := below;
          return Some(top.node);
        }
        ExpandKeepsPromise(plan, below, top.node);
        delayedNodes := Expand(plan, below, top.node);
        if !plan.post && Returned(plan, top.node) {
          return Some(top.node);
        }
      }
    }
  }

  // ----- What a traversal yields -----

  function OnlyLeaves(s: seq<Node>): seq<Node> {
    if s == [] then [] else (if s[0].Leaf? then [s[0]] else []) + OnlyLeaves(s[1..])
  }

  function Filter(p: Plan, s: seq<Node>): seq<Node> {
    if s == [] then [] else (if InRange(p, s[0].key) then [s[0]] else []) + Filter(p, s[1..])
  }

  function Reverse(s: seq<Node>): seq<Node> {
    if s == [] then [] else Reverse(s[1..]) + [s[0]]
  }

  function Directed(p: Plan, s: seq<Node>): seq<Node> {
    if p.ascending then s else Reverse(s)
  }

  lemma {:induction false} OnlyLeavesAppends(a: seq<Node>, b: seq<Node>)
    ensures OnlyLeaves(a + b) == OnlyLeaves(a) + OnlyLeaves(b)
  {
    if a == [] {
      assert a + b == b;
    } else {
      assert (a + b)[1..] == a[1..] + b;
      OnlyLeavesAppends(a[1..], b);
      Regroup(if a[0].Leaf? then [a[0]] else [], OnlyLeaves(a[1..]), OnlyLeaves(b));
    }
  }

  lemma {:induction false} FilterAppends(p: Plan, a: seq<Node>, b: seq<Node>)
    ensures Filter(p, a + b) == Filter(p, a) + Filter(p, b)
  {
    if a == [] {
      assert a + b == b;
    } else {
      assert (a + b)[1..] == a[1..] + b;
      FilterAppends(p, a[1..], b);
      Regroup(if InRange(p, a[0].key) then [a[0]] else [], Filter(p, a[1..]), Filter(p, b));
    }
  }

  lemma {:induction false} ReverseAppends(a: seq<Node>, b: seq<Node>)
    ensures Reverse(a + b) == Reverse(b) + Reverse(a)
  {
    if a == [] {
      assert a + b == b;
    } else {
      assert (a + b)[1..] == a[1..] + b;
      ReverseAppends(a[1..], b);
      Regroup(Reverse(b), Reverse(a[1..]), [a[0]]);
    }
  }

  lemma {:induction false} FilterNothing(p: Plan, s: seq<Node>)
    requires forall i :: 0 <= i < |s| ==> !InRange(p, s[i].key)
    ensures Filter(p, s) == []
  {
    if s != [] {
      FilterNothing(p, s[1..]);
    }
  }

  /** A subtree that is not descended into holds no leaf in range. */
  lemma {:induction false} PrunedSubtreesAreEmpty(p: Plan, t: Node)
    requires Ordered(t) && t.Inner?
    ensures !AfterStart(p, t.key) ==> Filter(p, LeafSeq(t.left)) == []
    ensures !BeforeEnd(p, t.key) ==> Filter(p, LeafSeq(t.right)) == []
  {
    Separated(t);
    LeafSeqMatchesMap(t.left);
    LeafSeqMatchesMap(t.right);
    if !AfterStart(p, t.key) {
      forall i | 0 <= i < |LeafSeq(t.left)| ensures !InRange(p, LeafSeq(t.left)[i].key) {
        var k := LeafSeq(t.left)[i].key;
        Trichotomy(k, t.key);
        if p.start.value != k && Less(p.start.value, k) {
          Transitive(p.start.value, k, t.key);
        }
      }
      FilterNothing(p, LeafSeq(t.left));
    }
    if !BeforeEnd(p, t.key) {
      forall i | 0 <= i < |LeafSeq(t.right)| ensures !InRange(p, LeafSeq(t.right)[i].key) {
        var k := LeafSeq(t.right)[i].key;
        Trichotomy(k, t.key);
        if k != t.key && Less(k, p.end.value) {
          Transitive(t.key, k, p.end.value);
        }
      }
      FilterNothing(p, LeafSeq(t.right));
    }
  }

  /**
   * For every range, direction, inclusiveness and order of inner nodes, the leaves visited are exactly the
   * leaves in range, in the requested direction.
   */
  lemma {:induction false} VisitsLeavesInRange(p: Plan, t: Node)
    requires Ordered(t)
    ensures OnlyLeaves(Visit(p, t)) == Directed(p, Filter(p, LeafSeq(t)))
  {
    if t.Leaf? {
      assert Filter(p, [t]) == if InRange(p, t.key) then [t] else [];
      assert OnlyLeaves([t]) == [t] == Reverse([t]);
    } else {
      VisitsLeavesInRange(p, t.left);
      VisitsLeavesInRange(p, t.right);
      LeavesBelow(p, t);
      OnlyLeavesAppends(Below(p, t), [t]);
      OnlyLeavesAppends([t], Below(p, t));
      assert OnlyLeaves([t]) == [];
    }
  }

  lemma {:induction false} LeavesBelow(p: Plan, t: Node)
    requires Ordered(t) && t.Inner?
    requires OnlyLeaves(Visit(p, t.left)) == Directed(p, Filter(p, LeafSeq(t.left)))
    requires OnlyLeaves(Visit(p, t.right)) == Directed(p, Filter(p, LeafSeq(t.right)))
    ensures OnlyLeaves(Below(p, t)) == Directed(p, Filter(p, LeafSeq(t)))
  {
    PrunedSubtreesAreEmpty(p, t);
    FilterAppends(p, LeafSeq(t.left), LeafSeq(t.right));
    ReverseAppends(Filter(p, LeafSeq(t.left)), Filter(p, LeafSeq(t.right)));
    OnlyLeavesAppends(VisitLeft(p, t), VisitRight(p, t));
    OnlyLeavesAppends(VisitRight(p, t), VisitLeft(p, t));
    assert OnlyLeaves(VisitLeft(p, t)) == Directed(p, Filter(p, LeafSeq(t.left)));
    assert OnlyLeaves(VisitRight(p, t)) == Directed(p, Filter(p, LeafSeq(t.right)));
  }

  // ----- The leaf iterator -----

  class LeafIterator {
    const walker: Walker
    var done: bool
    var key: Bytes
    var value: Bytes
    var valid: bool

    /** The leaves after the current one. */
    function Ahead(): seq<Node>
      reads this, walker
    {
      if done then [] else OnlyLeaves(walker.Rest())
    }

    constructor (walker: Walker)
      requires !walker.plan.post
      ensures this.walker == walker && valid && !done && Ahead() == OnlyLeaves(walker.Rest())
    {
      this.walker := walker;
      done, valid := false, true;
      key, value := [], [];
    }

    /** `Iterator.Next`: skips inner nodes and moves to the next leaf, or becomes invalid. */
    method Next()
      modifies this, walker
      ensures old(done) ==> done && valid == old(valid) && key == old(key) && value == old(value)
      ensures !old(done) && old(Ahead()) == [] ==> !valid && done
      ensures old(Ahead()) != [] ==>
        && valid == old(valid) && !done && old(Ahead())[0].Leaf?
        && key == old(Ahead())[0].key && value == old(Ahead())[0].value
        && Ahead() == old(Ahead())[1..]
    {
      if done {
        return;
      }
      while true
        invariant !done && valid == old(valid) && Ahead() == old(Ahead())
        decreases |walker.Rest()|
      {
        var node := walker.Next();
        if node.None? {
          done, valid := true, false;
          return;
        }
        assert ([node.value] + walker.Rest())[1..] == walker.Rest();
        if node.value.Leaf? {
          key, value := node.value.key, node.value.value;
          return;
        }
      }
    }
  }

  // ----- Post-order, as the exporter uses it -----

  const EXPORT: Plan := Plan(None, None, true, false, true)

  function PostOrder(t: Node): seq<Node> {
    if t.Leaf? then [t] else PostOrder(t.left) + PostOrder(t.right) + [t]
  }

  /** The export traversal yields every node once, children before parents, left before right. */
  lemma {:induction false} ExportIsPostOrder(t: Node)
    ensures Visit(EXPORT, t) == PostOrder(t)
  {
    if t.Inner? {
      ExportIsPostOrder(t.left);
      ExportIsPostOrder(t.right);
      assert Below(EXPORT, t) == PostOrder(t.left) + PostOrder(t.right);
    }
  }

  const WHOLE: Plan := Plan(None, None, true, false, false)

  function PreOrder(t: Node): seq<Node> {
    if t.Leaf? then [t] else [t] + PreOrder(t.left) + PreOrder(t.right)
  }

  /** A traversal of the whole tree that is not in post-order yields parents before children. */
  lemma {:induction false} WholeWalkIsPreOrder(t: Node)
    ensures Visit(WHOLE, t) == PreOrder(t)
  {
    if t.Inner? {
      WholeWalkIsPreOrder(t.left);
      WholeWalkIsPreOrder(t.right);
      assert Below(WHOLE, t) == PreOrder(t.left) + PreOrder(t.right);
      Regroup([t], PreOrder(t.left), PreOrder(t.right));
    }
  }
}
