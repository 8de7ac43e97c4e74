/**
 * What a path to a leaf proves. In a tree whose hashed strings do not collide with those of the proof, a path that
 * hashes up to the root hash and has no step of height 0 is the path of its key, and the key has the proved value.
 */
module ProofSoundness {
  import opened Base
  import opened Trees
  import opened Encoding
  import opened Merkle
  import opened Proofs

  /** What the hash of a step takes, given the hash of the child on the path. */
  function StepInput(p: ProofInnerNode, child: Bytes): Bytes {
    HeaderBytes(p.height, p.size, p.version) +
    if p.left == [] then PutBytes(child) + PutBytes(p.right) else PutBytes(p.left) + PutBytes(child)
  }

  function LeafInput(key: Bytes, valueHash: Bytes, version: int): Bytes {
    HeaderBytes(0, 1, version) + (PutBytes(key) + PutBytes(valueHash))
  }

  /** What a path claims: a key, its value, and the version of the leaf. */
  datatype Claim = Claim(key: Bytes, value: Bytes, version: int)

  function ClaimHash(sha: Digest, c: Claim): Bytes {
    LeafHash(sha, c.key, sha(c.value), c.version)
  }

  /** Every string hashed on the way from the claimed value up the path. */
  function FoldHashed(sha: Digest, path: seq<ProofInnerNode>, c: Claim): set<Bytes> {
    if path == [] then {c.value, LeafInput(c.key, sha(c.value), c.version)}
    else
      FoldHashed(sha, path[1..], c) +
      match Fold(sha, path[1..], ClaimHash(sha, c))
      case Ok(child) => {StepInput(path[0], child)}
      case Err(_) => {}
  }

  /** No step of the path has the height of a leaf. */
  predicate NoLeafSteps(path: seq<ProofInnerNode>) {
    forall i :: 0 <= i < |path| ==> path[i].height != 0
  }

  lemma {:induction false} PairSplits(a: Bytes, b: Bytes, c: Bytes, d: Bytes)
    requires PutBytes(a) + PutBytes(b) == PutBytes(c) + PutBytes(d)
    ensures a == c && b == d
  {
    BytesPrefixFree(a, c, PutBytes(b), PutBytes(d));
    assert PutBytes(b) + [] == PutBytes(b) == PutBytes(d) == PutBytes(d) + [];
    BytesPrefixFree(b, d, [], []);
  }

  /** The preimage of a node with its children or its value hash as length-prefixed strings. */
  lemma {:induction false} PreimageParts(sha: Digest, t: Node, working: int)
    requires Digest32(sha)
    ensures t.Leaf? ==> Preimage(sha, t, working) == LeafInput(t.key, sha(t.value), NodeVersion(t, working))
    ensures t.Inner? ==>
      Preimage(sha, t, working) == HeaderBytes(t.height, t.size, NodeVersion(t, working))
                                   + (PutBytes(Hash(sha, t.left, working)) + PutBytes(Hash(sha, t.right, working)))
  {
    if t.Leaf? {
      HashIsBytes(sha(t.value));
    } else {
      HashIsBytes(Hash(sha, t.left, working));
      HashIsBytes(Hash(sha, t.right, working));
    }
  }

  /** A claim with the hash of a tree is about the one leaf the tree then is. */
  lemma {:induction false} ClaimIsLeaf(sha: Digest, t: Node, working: int, c: Claim)
    requires Digest32(sha) && Measured(t)
    requires CollisionFree(sha, FoldHashed(sha, [], c), Hashed(sha, t, working))
    requires ClaimHash(sha, c) == Hash(sha, t, working)
    ensures t.Leaf? && t.key == c.key && t.value == c.value && NodeVersion(t, working) == c.version
  {
    var p := LeafInput(c.key, sha(c.value), c.version);
    assert p in FoldHashed(sha, [], c) && Preimage(sha, t, working) in Hashed(sha, t, working);
    assert p == Preimage(sha, t, working);
    PreimageParts(sha, t, working);
    MeasuredBounds(t);
    if t.Inner? {
      HeadersSplit(0, 1, c.version, PutBytes(c.key) + PutBytes(sha(c.value)),
                   t.height, t.size, NodeVersion(t, working),
                   PutBytes(Hash(sha, t.left, working)) + PutBytes(Hash(sha, t.right, working)));
    } else {
      HeadersSplit(0, 1, c.version, PutBytes(c.key) + PutBytes(sha(c.value)),
                   0, 1, NodeVersion(t, working), PutBytes(t.key) + PutBytes(sha(t.value)));
      PairSplits(c.key, sha(c.value), t.key, sha(t.value));
      assert c.value in FoldHashed(sha, [], c) && t.value in Hashed(sha, t, working);
    }
  }

  /** A step with the hash of a tree has the tree's header, its sibling's hash, and the hash of one child. */
  lemma {:induction false} StepIsInner(sha: Digest, t: Node, working: int, p: ProofInnerNode, child: Bytes)
    requires Digest32(sha) && p.height != 0 && (p.left == [] || p.right == [])
    requires StepInput(p, child) == Preimage(sha, t, working)
    ensures t.Inner? && p.height == t.height && p.size == t.size && p.version == NodeVersion(t, working)
    ensures p.left == [] ==> child == Hash(sha, t.left, working) && p.right == Hash(sha, t.right, working)
    ensures p.left != [] ==> child == Hash(sha, t.right, working) && p.left == Hash(sha, t.left, working)
  {
    PreimageParts(sha, t, working);
    var a := if p.left == [] then PutBytes(child) + PutBytes(p.right) else PutBytes(p.left) + PutBytes(child);
    if t.Leaf? {
      HeadersSplit(p.height, p.size, p.version, a, 0, 1, NodeVersion(t, working),
                   PutBytes(t.key) + PutBytes(sha(t.value)));
    } else {
      var l, r := Hash(sha, t.left, working), Hash(sha, t.right, working);
      HeadersSplit(p.height, p.size, p.version, a, t.height, t.size, NodeVersion(t, working),
                   PutBytes(l) + PutBytes(r));
      if p.left == [] {
        PairSplits(child, p.right, l, r);
      } else {
        PairSplits(p.left, child, l, r);
      }
    }
  }

  lemma {:induction false} FoldStep(sha: Digest, path: seq<ProofInnerNode>, c: Claim)
    requires path != [] && Fold(sha, path, ClaimHash(sha, c)).Ok?
    ensures path[0].left == [] || path[0].right == []
    ensures Fold(sha, path[1..], ClaimHash(sha, c)).Ok?
    ensures
      var input := StepInput(path[0], Fold(sha, path[1..], ClaimHash(sha, c)).value);
      Fold(sha, path, ClaimHash(sha, c)).value == sha(input) && input in FoldHashed(sha, path, c)
    ensures FoldHashed(sha, path[1..], c) <= FoldHashed(sha, path, c)
  {
  }

  /** The child a step descends to. */
  function Descent(t: Node, p: ProofInnerNode): Node
    requires t.Inner?
  {
    if p.left == [] then t.left else t.right
  }

  /** The first step of a path that hashes up to a tree's hash, and what it leaves to the child. */
  lemma {:induction false} FirstStep(sha: Digest, t: Node, working: int, path: seq<ProofInnerNode>, c: Claim)
    requires Digest32(sha) && path != [] && path[0].height != 0
    requires CollisionFree(sha, FoldHashed(sha, path, c), Hashed(sha, t, working))
    requires Fold(sha, path, ClaimHash(sha, c)) == Ok(Hash(sha, t, working))
    ensures t.Inner?
    ensures path[0] == if path[0].left == []
      then ProofInnerNode(t.height, t.size, NodeVersion(t, working), [], Hash(sha, t.right, working))
      else ProofInnerNode(t.height, t.size, NodeVersion(t, working), Hash(sha, t.left, working), [])
    ensures Fold(sha, path[1..], ClaimHash(sha, c)) == Ok(Hash(sha, Descent(t, path[0]), working))
    ensures CollisionFree(sha, FoldHashed(sha, path[1..], c), Hashed(sha, Descent(t, path[0]), working))
  {
    FoldStep(sha, path, c);
    var child := Fold(sha, path[1..], ClaimHash(sha, c)).value;
    assert Preimage(sha, t, working) in Hashed(sha, t, working);
    assert StepInput(path[0], child) == Preimage(sha, t, working);
    StepIsInner(sha, t, working, path[0], child);
  }

  /** A step down to the child that has the key is the step of the key's own path. */
  lemma {:induction false} StepOfKey(t: Node, p: ProofInnerNode, key: Bytes)
    requires Ordered(t) && t.Inner? && key in LeafMap(Descent(t, p))
    ensures Descent(t, p) == Child(t, key) && (p.left == [] <==> Less(key, t.key))
    ensures key in LeafMap(t) && LeafMap(t)[key] == LeafMap(Child(t, key))[key]
  {
    Separated(t);
    Trichotomy(key, t.key);
  }

  /** A path without leaf steps that hashes up to a tree's hash is the tree's own path to its key. */
  lemma {:induction false} PathIsGenuine(sha: Digest, t: Node, working: int, path: seq<ProofInnerNode>, c: Claim)
    requires Digest32(sha) && Ordered(t) && Measured(t) && NoLeafSteps(path)
    requires CollisionFree(sha, FoldHashed(sha, path, c), Hashed(sha, t, working))
    requires Fold(sha, path, ClaimHash(sha, c)) == Ok(Hash(sha, t, working))
    ensures path == Path(sha, t, c.key, working)
    ensures c.key in LeafMap(t) && LeafMap(t)[c.key].Leaf? && LeafMap(t)[c.key].value == c.value
    ensures NodeVersion(LeafMap(t)[c.key], working) == c.version
    decreases |path|
  {
    if path == [] {
      ClaimIsLeaf(sha, t, working, c);
    } else {
      FirstStep(sha, t, working, path, c);
      PathIsGenuine(sha, Descent(t, path[0]), working, path[1..], c);
      StepOfKey(t, path[0], c.key);
      assert path == [Step(sha, t, c.key, working)] + path[1..];
    }
  }

  /**
   * Soundness of existence proofs. A path that hashes up to the root hash proves what it claims exactly when it has no
   * step of height 0: then, and only then, it is the path of the key in the tree, and the key has the claimed value.
   */
  lemma {:induction false} ExistenceProofSound(sha: Digest, t: Node, working: int, path: seq<ProofInnerNode>, c: Claim)
    requires Digest32(sha) && Ordered(t) && Measured(t)
    requires CollisionFree(sha, FoldHashed(sha, path, c), Hashed(sha, t, working))
    requires Fold(sha, path, ClaimHash(sha, c)) == Ok(Hash(sha, t, working))
    ensures NoLeafSteps(path) <==>
      path == Path(sha, t, c.key, working) && c.key in Model(t) && Model(t)[c.key] == c.value
  {
    LeafMapIsModel(t);
    if NoLeafSteps(path) {
      PathIsGenuine(sha, t, working, path, c);
    } else if path == Path(sha, t, c.key, working) {
      PathHasNoLeafSteps(sha, t, c.key, working);
    }
  }

  /**
   * The condition is needed: a step of height 0 has the form of a leaf, so that for every claim there is a tree, with
   * the hash of the claim for its only key, whose root hash a path with one such step reaches from the claim.
   */
  lemma {:induction false} LeafStepHashesUp(sha: Digest, c: Claim, version: int, value: Bytes)
    requires Digest32(sha)
    ensures
      var t := Leaf(Some(NodeKey(version, 1)), ClaimHash(sha, c), value);
      var path := [ProofInnerNode(0, 1, version, [], sha(value))];
      && Avl(t) && Fold(sha, path, ClaimHash(sha, c)) == Ok(Hash(sha, t, 0)) && !NoLeafSteps(path)
      && (c.key in Model(t) <==> c.key == ClaimHash(sha, c))
  {
    HashIsBytes(sha(value));
    var path := [ProofInnerNode(0, 1, version, [], sha(value))];
    assert path[1..] == [] && path[0].height == 0;
  }

  lemma {:induction false} PathHasNoLeafSteps(sha: Digest, t: Node, key: Bytes, working: int)
    requires Measured(t)
    ensures NoLeafSteps(Path(sha, t, key, working))
  {
    if t.Inner? {
      MeasuredBounds(t);
      PathHasNoLeafSteps(sha, Child(t, key), key, working);
    }
  }
}
