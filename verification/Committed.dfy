/**
 * What a save fixes besides the map: the working hash announced before the save is the hash of the saved tree, in
 * memory and read back, and the new nodes are numbered in pre-order.
 */
module Committed {
  import opened Base
  import opened Trees
  import opened Update
  import opened Store
  import opened Layout
  import opened Saving
  import opened Merkle
  import opened Machine
  import opened Runs

  // ----- Hashes -----

  /** Once every node has a key, the working version no longer matters. */
  lemma {:induction false} SavedHashFixed(sha: Digest, t: Node, v: int, w: int)
    requires Saved(t)
    ensures Hash(sha, t, v) == Hash(sha, t, w)
  {
    if t.Inner? {
      SavedHashFixed(sha, t.left, v, w);
      SavedHashFixed(sha, t.right, v, w);
    }
  }

  /** The hash of an unsaved tree under the working version is the hash of the tree once it is saved. */
  lemma {:induction false} AssignedHash(sha: Digest, t: Node, version: int, nonce: int, base: set<Node>, w: int)
    requires KeptFrom(t, base) && forall x {:trigger x in base} :: x in base ==> Saved(x)
    ensures Hash(sha, AssignKeys(t, version, nonce).node, w) == Hash(sha, t, version)
  {
    if t.nk.Some? {
      SavedHashFixed(sha, t, version, w);
    } else if t.Inner? {
      AssignedHash(sha, t.left, version, nonce + 1, base, w);
      AssignedHash(sha, t.right, version, AssignKeys(t.left, version, nonce + 1).nonce, base, w);
    }
  }

  lemma {:induction false} RekeyedHash(sha: Digest, t: Node, nk: NodeKey, w: int)
    requires t.nk.Some? && nk.version == KeyOf(t).version
    ensures Hash(sha, Rekey(t, nk), w) == Hash(sha, t, w)
  {
  }

  lemma {:induction false} RootSaved(s: State, h: History)
    requires Inv(s, h) && s.root.Some? && s.root.value.nk.Some?
    ensures Saved(s.root.value)
  {
    DerivedSaves(h, s.lastSaved, s.root, 0);
    if s.root != s.lastSaved {
      NodesAreSaved(s.lastSaved.value, s.root.value);
    }
  }

  /** The working hash is the hash of the version it is about to become, whatever version is worked on later. */
  lemma {:induction false} WorkingHash(sha: Digest, s: State, h: History, w: int)
    requires Inv(s, h)
    ensures RootHash(sha, SavedRoot(s.root, WorkingVersion(s)), w) == RootHash(sha, s.root, WorkingVersion(s))
  {
    var v := WorkingVersion(s);
    if s.root.Some? {
      if s.root.value.nk.Some? {
        RootSaved(s, h);
        SavedHashFixed(sha, s.root.value, v, w);
      } else {
        DerivedSaves(h, s.lastSaved, s.root, v);
        forall x | x in Reusable(s.lastSaved) ensures Saved(x) {
          NodesAreSaved(s.lastSaved.value, x);
        }
        AssignedHash(sha, s.root.value, v, 0, Reusable(s.lastSaved), w);
      }
    }
  }

  lemma {:induction false} ReadBackHash(sha: Digest, s: State, h: History, v: int, w: int)
    requires Inv(s, h) && v in h.roots
    ensures ReadVersion(s.db, v).Ok?
    ensures RootHash(sha, ReadVersion(s.db, v).value, w) == RootHash(sha, h.roots[v], w)
  {
    assert InSpan(h, v);
    VersionReadsBack(s.db, h, h.lo, v);
    if h.roots[v].Some? {
      RekeyedHash(sha, h.roots[v].value, At(h.roots[v].value, h.lo), w);
    }
  }

  lemma {:induction false} CanonHash(sha: Digest, r: Option<Node>, w: int)
    ensures RootHash(sha, Canon(r), w) == RootHash(sha, r, w)
  {
    if r.Some? && r.value.nk.Some? {
      RekeyedHash(sha, r.value, NodeKey(KeyOf(r.value).version, 1), w);
    }
  }

  /** The version that a save writes reads back with the working hash of the state before. */
  lemma {:induction false} SaveCommitsHash(sha: Digest, s: State, h: History, n: State, w: int)
    requires Inv(s, h) && Legal(s, h, SaveVersion) && Save(s) == Ok(n)
    ensures ReadVersion(n.db, WorkingVersion(s)).Ok?
    ensures RootHash(sha, ReadVersion(n.db, WorkingVersion(s)).value, w) == RootHash(sha, s.root, WorkingVersion(s))
    ensures RootHash(sha, n.root, w) == RootHash(sha, s.root, WorkingVersion(s))
  {
    var h' := NextHistory(h, s, SaveVersion);
    SaveSucceeds(s, h);
    SaveKeepsInv(s, h);
    ReadBackHash(sha, n, h', h.hi + 1, w);
    CanonHash(sha, SavedRoot(s.root, h.hi + 1), w);
    WorkingHash(sha, s, h, w);
  }

  // ----- The tree in memory -----

  /** Removing a key that is not there changes nothing at all. */
  lemma {:induction false} AbsentRemoval(s: State, h: History, key: Bytes)
    requires Inv(s, h) && key !in RootModel(s.root)
    ensures Next(s, Remove(key)) == s
  {
    RemoveIsMapDelete(s.root, key);
  }

  /** The operations that leave no unsaved change behind. */
  ghost predicate Settles(s: State, h: History, op: Op) {
    op.Rollback? || op.SaveVersion? || op.Reopen?
    || (op.LoadVersionForOverwriting? && !IsEmpty(h) && Overwrite(s, op.target).Ok?)
  }

  lemma {:induction false} LoadRests(s: State, target: int)
    requires LoadVersion(s, target).Ok?
    ensures FirstVersion(s) != 0 ==> LoadVersion(s, target).value.root == LoadVersion(s, target).value.lastSaved
    ensures FirstVersion(s) == 0 ==>
      LoadVersion(s, target).value.root == s.root && LoadVersion(s, target).value.lastSaved == s.lastSaved
  {
  }

  lemma {:induction false} OverwriteRests(s: State, h: History, target: int)
    requires Inv(s, h) && !IsEmpty(h) && Overwrite(s, target).Ok?
    ensures
      var n := Next(s, LoadVersionForOverwriting(target));
      n.root == n.lastSaved
  {
    SearchFinds(s, h);
    LoadRests(s, target);
  }

  lemma {:induction false} ReopenRests(s: State)
    ensures Next(s, Reopen).root == Next(s, Reopen).lastSaved
  {
    var o := Opened(s.initialVersion, s.db);
    if LoadVersion(o, 0).Ok? {
      LoadRests(o, 0);
    }
  }

  lemma {:induction false} RestsOnLast(s: State, h: History, op: Op)
    requires Inv(s, h) && Settles(s, h, op)
    ensures Next(s, op).root == Next(s, op).lastSaved
  {
    if op.SaveVersion? {
      SaveSucceeds(s, h);
    } else if op.LoadVersionForOverwriting? {
      OverwriteRests(s, h, op.target);
    } else if op.Reopen? {
      ReopenRests(s);
    }
  }

  lemma {:induction false} LastHash(sha: Digest, n: State, h: History, v: int, w: int)
    requires Inv(n, h) && n.root == n.lastSaved
    ensures RootHash(sha, n.root, v) == RootHash(sha, Last(h), w)
  {
    if n.root.Some? {
      DerivedSaves(h, n.lastSaved, n.root, v);
      SavedHashFixed(sha, n.root.value, v, w);
      LastIsGood(h);
      RekeyedHash(sha, Last(h).value, At(Last(h).value, h.lo), w);
    }
  }

  /** After a rollback, a save, a reopening or a load, the working tree is the last saved one, and so is its hash. */
  lemma {:induction false} SettledHash(sha: Digest, s: State, h: History, op: Op, v: int, w: int)
    requires Inv(s, h) && Legal(s, h, op) && Settles(s, h, op)
    ensures
      var n, h' := Next(s, op), NextHistory(h, s, op);
      n.root == n.lastSaved && RootHash(sha, n.root, v) == RootHash(sha, Last(h'), w)
  {
    NextKeepsInv(s, h, op);
    RestsOnLast(s, h, op);
    LastHash(sha, Next(s, op), NextHistory(h, s, op), v, w);
  }

  // ----- Nonces -----

  /** The nodes of `a` at the places where `t` has nodes without a key: parent, left, right. */
  function NewInOrder(t: Node, a: Node): seq<Node> {
    if t.nk.Some? then []
    else if t.Leaf? || a.Leaf? then [a]
    else [a] + (NewInOrder(t.left, a.left) + NewInOrder(t.right, a.right))
  }

  /** The i-th new node in pre-order gets the i-th nonce, and the last nonce is their number. */
  lemma {:induction false} NoncesInPreOrder(t: Node, version: int, nonce: int)
    ensures var a := AssignKeys(t, version, nonce); var s := NewInOrder(t, a.node);
      && a.nonce == nonce + |s|
      && forall i :: 0 <= i < |s| ==> s[i].nk == Some(NodeKey(version, nonce + 1 + i))
  {
    if t.nk.None? && t.Inner? {
      var l := AssignKeys(t.left, version, nonce + 1);
      NoncesInPreOrder(t.left, version, nonce + 1);
      NoncesInPreOrder(t.right, version, l.nonce);
      var a := AssignKeys(t, version, nonce);
      var x, y := NewInOrder(t.left, a.node.left), NewInOrder(t.right, a.node.right);
      assert NewInOrder(t, a.node) == [a.node] + (x + y);
    }
  }
}
