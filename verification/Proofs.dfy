/** Existence and non-existence proofs: paths to leaves, their hashes, and the conversion to ICS-23 operations. */
module Proofs {
  import opened Base
  import opened Trees
  import opened Update
  import opened Encoding
  import opened Merkle
  import opened Lookup

  /** One step of a path, from the root down; the child on the path has an empty hash. */
  datatype ProofInnerNode = ProofInnerNode(height: int, size: int, version: int, left: Bytes, right: Bytes)

  datatype ProofError = BothChildrenSet | KeyDoesNotExist | KeyExists

  // ----- Paths -----

  function Step(sha: Digest, t: Node, key: Bytes, working: int): ProofInnerNode
    requires t.Inner?
  {
    if Less(key, t.key)
    then ProofInnerNode(t.height, t.size, NodeVersion(t, working), [], Hash(sha, t.right, working))
    else ProofInnerNode(t.height, t.size, NodeVersion(t, working), Hash(sha, t.left, working), [])
  }

  function Child(t: Node, key: Bytes): Node
    requires t.Inner?
  {
    if Less(key, t.key) then t.left else t.right
  }

  function Path(sha: Digest, t: Node, key: Bytes, working: int): seq<ProofInnerNode> {
    if t.Leaf? then [] else [Step(sha, t, key, working)] + Path(sha, Child(t, key), key, working)
  }

  /** The leaf the path ends at; it holds the key when the key exists. */
  function PathLeaf(t: Node, key: Bytes): (leaf: Node)
    ensures leaf.Leaf?
  {
    if t.Leaf? then t else PathLeaf(Child(t, key), key)
  }

  function InnerHash(sha: Digest, p: ProofInnerNode, child: Bytes): Result<Bytes, ProofError> {
    var header := HeaderBytes(p.height, p.size, p.version);
    if p.left != [] && p.right != [] then Err(BothChildrenSet)
    else if p.left == [] then Ok(sha(header + (PutBytes(child) + PutBytes(p.right))))
    else Ok(sha(header + (PutBytes(p.left) + PutBytes(child))))
  }

  function LeafHash(sha: Digest, key: Bytes, valueHash: Bytes, version: int): Bytes {
    sha(HeaderBytes(0, 1, version) + (PutBytes(key) + PutBytes(valueHash)))
  }

  /** Hashing upwards: the last step of the path is applied first. */
  function Fold(sha: Digest, path: seq<ProofInnerNode>, leafHash: Bytes): Result<Bytes, ProofError> {
    if path == [] then Ok(leafHash)
    else
      var child :- Fold(sha, path[1..], leafHash);
      InnerHash(sha, path[0], child)
  }

  /** The path of an existing key ends at the leaf that holds it. */
  lemma {:induction false} PathFindsKey(t: Node, key: Bytes)
    requires Ordered(t)
    ensures PathLeaf(t, key).key in LeafMap(t) && LeafMap(t)[PathLeaf(t, key).key] == PathLeaf(t, key)
    ensures key in LeafMap(t) <==> PathLeaf(t, key).key == key
  {
    if t.Inner? {
      Separated(t);
      Trichotomy(key, t.key);
      PathFindsKey(Child(t, key), key);
    }
  }

  lemma {:induction false} StepHash(sha: Digest, t: Node, key: Bytes, working: int)
    requires Digest32(sha) && t.Inner?
    ensures InnerHash(sha, Step(sha, t, key, working), Hash(sha, Child(t, key), working)) == Ok(Hash(sha, t, working))
  {
    HashIsBytes(Hash(sha, t.left, working));
    HashIsBytes(Hash(sha, t.right, working));
  }

  lemma {:induction false} LeafHashIsNodeHash(sha: Digest, t: Node, working: int)
    requires Digest32(sha) && t.Leaf?
    ensures LeafHash(sha, t.key, sha(t.value), NodeVersion(t, working)) == Hash(sha, t, working)
  {
    HashIsBytes(sha(t.value));
  }

  /** Folding the path of any key from its leaf hash gives the root hash. */
  lemma {:induction false} PathFoldsToRoot(sha: Digest, t: Node, key: Bytes, working: int)
    requires Digest32(sha)
    ensures
      var leaf := PathLeaf(t, key);
      Fold(sha, Path(sha, t, key, working), LeafHash(sha, leaf.key, sha(leaf.value), NodeVersion(leaf, working)))
      == Ok(Hash(sha, t, working))
  {
    if t.Leaf? {
      LeafHashIsNodeHash(sha, t, working);
    } else {
      PathFoldsToRoot(sha, Child(t, key), key, working);
      StepHash(sha, t, key, working);
      assert Path(sha, t, key, working)[1..] == Path(sha, Child(t, key), key, working);
    }
  }

  // ----- ICS-23 -----

  datatype LeafOp = LeafOp(prefix: Bytes)

  datatype InnerOp = InnerOp(prefix: Bytes, suffix: Bytes)

  datatype ExistenceProof = ExistenceProof(key: Bytes, value: Bytes, leaf: LeafOp, path: seq<InnerOp>)

  datatype NonExistenceProof =
    NonExistenceProof(key: Bytes, left: Option<ExistenceProof>, right: Option<ExistenceProof>)

  /** ICS-23 leaf operation: prefix, length-prefixed key, length-prefixed hash of the value. */
  function LeafOpInput(sha: Digest, op: LeafOp, key: Bytes, value: Bytes): Bytes {
    op.prefix + (PutBytes(key) + PutBytes(sha(value)))
  }

  /** ICS-23 inner operation: prefix, child, suffix. */
  function InnerOpInput(op: InnerOp, child: Bytes): Bytes {
    op.prefix + child + op.suffix
  }

  function ConvertLeafOp(version: int): LeafOp {
    LeafOp(HeaderBytes(0, 1, version))
  }

  function ConvertInnerOp(p: ProofInnerNode): InnerOp {
    var header := HeaderBytes(p.height, p.size, p.version);
    if |p.left| > 0 then InnerOp(header + [0x20] + p.left + [0x20], [])
    else InnerOp(header + [0x20], [0x20] + p.right)
  }

  function ConvertInnerOps(path: seq<ProofInnerNode>): seq<InnerOp> {
    if path == [] then [] else ConvertInnerOps(path[1..]) + [ConvertInnerOp(path[0])]
  }

  /** The source's loop: from the end of the path, appending. */
  method ConvertPath(path: seq<ProofInnerNode>) returns (steps: seq<InnerOp>)
    ensures steps == ConvertInnerOps(path)
  {
    steps := [];
    var i := |path| - 1;
    while i >= 0
      invariant -1 <= i < |path|
      invariant steps == ConvertInnerOps(path[i + 1..])
    {
      assert path[i..][1..] == path[i + 1..];
      steps := steps + [ConvertInnerOp(path[i])];
      i := i - 1;
    }
  }

  function CalculateUp(sha: Digest, ops: seq<InnerOp>, child: Bytes): Bytes {
    if ops == [] then child else CalculateUp(sha, ops[1..], sha(InnerOpInput(ops[0], child)))
  }

  /** The root an ICS-23 verifier computes from an existence proof. */
  function CalculateRoot(sha: Digest, p: ExistenceProof): Bytes {
    CalculateUp(sha, p.path, sha(LeafOpInput(sha, p.leaf, p.key, p.value)))
  }

  function CreateExistenceProof(sha: Digest, t: Node, key: Bytes, working: int): Result<ExistenceProof, ProofError> {
    var leaf := PathLeaf(t, key);
    if leaf.key != key then Err(KeyDoesNotExist)
    else Ok(ExistenceProof(leaf.key, leaf.value, ConvertLeafOp(NodeVersion(leaf, working)),
                           ConvertInnerOps(Path(sha, t, key, working))))
  }

  /** Prefix, child hash and suffix are, byte for byte, the node's own hash preimage. */
  lemma {:induction false} InnerOpIsPreimage(sha: Digest, t: Node, key: Bytes, working: int)
    requires Digest32(sha) && t.Inner?
    ensures InnerOpInput(ConvertInnerOp(Step(sha, t, key, working)), Hash(sha, Child(t, key), working))
      == Preimage(sha, t, working)
  {
    var l, r, h := Hash(sha, t.left, working), Hash(sha, t.right, working), Header(t, working);
    assert Preimage(sha, t, working) == h + (([0x20] + l) + ([0x20] + r));
    if Less(key, t.key) {
      assert (h + [0x20]) + l + ([0x20] + r) == h + (([0x20] + l) + ([0x20] + r));
    } else {
      assert (h + [0x20] + l + [0x20]) + r + [] == h + (([0x20] + l) + ([0x20] + r));
    }
  }

  lemma {:induction false} LeafOpIsPreimage(sha: Digest, t: Node, working: int)
    requires Digest32(sha) && t.Leaf?
    ensures LeafOpInput(sha, ConvertLeafOp(NodeVersion(t, working)), t.key, t.value) == Preimage(sha, t, working)
  {
    HashIsBytes(sha(t.value));
  }

  lemma {:induction false} CalculateUpAppends(sha: Digest, ops: seq<InnerOp>, op: InnerOp, child: Bytes)
    ensures CalculateUp(sha, ops + [op], child) == sha(InnerOpInput(op, CalculateUp(sha, ops, child)))
  {
    if ops != [] {
      assert (ops + [op])[1..] == ops[1..] + [op];
      CalculateUpAppends(sha, ops[1..], op, sha(InnerOpInput(ops[0], child)));
    } else {
      assert ops + [op] == [op] && [op][1..] == [];
    }
  }

  lemma {:induction false} OpsReachRoot(sha: Digest, t: Node, key: Bytes, working: int)
    requires Digest32(sha)
    ensures CalculateUp(sha, ConvertInnerOps(Path(sha, t, key, working)), Hash(sha, PathLeaf(t, key), working))
      == Hash(sha, t, working)
  {
    if t.Inner? {
      var below := Path(sha, Child(t, key), key, working);
      var p := Path(sha, t, key, working);
      assert p[0] == Step(sha, t, key, working) && p[1..] == below;
      OpsReachRoot(sha, Child(t, key), key, working);
      CalculateUpAppends(sha, ConvertInnerOps(below), ConvertInnerOp(p[0]), Hash(sha, PathLeaf(t, key), working));
      InnerOpIsPreimage(sha, t, key, working);
    }
  }

  /** A proof is produced for exactly the keys of the tree, holds their value, and computes the root hash. */
  lemma {:induction false} ExistenceProofCorrect(sha: Digest, t: Node, key: Bytes, working: int)
    requires Digest32(sha) && Ordered(t)
    ensures CreateExistenceProof(sha, t, key, working).Ok? <==> key in Model(t)
    ensures key in Model(t) ==>
      var p := CreateExistenceProof(sha, t, key, working).value;
      p.key == key && p.value == Model(t)[key] && CalculateRoot(sha, p) == Hash(sha, t, working)
  {
    PathFindsKey(t, key);
    LeafMapIsModel(t);
    LeafOpIsPreimage(sha, PathLeaf(t, key), working);
    OpsReachRoot(sha, t, key, working);
  }

  // ----- The position of a path -----

  /** The rank read off a path: every step to the right skips the left sibling's leaves. */
  function IndexFrom(path: seq<ProofInnerNode>, i: nat): int
    requires i <= |path|
    decreases |path| - i
  {
    if i == |path| then 0
    else (if path[i].left == [] then 0
          else path[i].size - (if i < |path| - 1 then path[i + 1].size else 1)) + IndexFrom(path, i + 1)
  }

  /** `PathToLeaf.Index`; a step with both children set makes it -1. */
  method PathIndex(path: seq<ProofInnerNode>) returns (idx: int)
    ensures (exists i :: 0 <= i < |path| && path[i].left != [] && path[i].right != []) ==> idx == -1
    ensures OneSided(path) ==> idx == IndexFrom(path, 0)
  {
    idx := 0;
    for i := 0 to |path|
      invariant forall j :: 0 <= j < i ==> path[j].left == [] || path[j].right == []
      invariant idx + IndexFrom(path, i) == IndexFrom(path, 0)
    {
      if path[i].left == [] {
      } else if path[i].right == [] {
        idx := idx + path[i].size - (if i < |path| - 1 then path[i + 1].size else 1);
      } else {
        return -1;
      }
    }
  }

  lemma {:induction false} IndexFromShifts(p: ProofInnerNode, path: seq<ProofInnerNode>, i: nat)
    requires i <= |path|
    ensures IndexFrom([p] + path, i + 1) == IndexFrom(path, i)
    decreases |path| - i
  {
    if i < |path| {
      IndexFromShifts(p, path, i + 1);
    }
  }

  lemma {:induction false} IndexUnfolds(p: ProofInnerNode, path: seq<ProofInnerNode>)
    ensures IndexFrom([p] + path, 0) ==
      (if p.left == [] then 0 else p.size - (if path != [] then path[0].size else 1)) + IndexFrom(path, 0)
  {
    IndexFromShifts(p, path, 0);
  }

  lemma {:induction false} StepSides(sha: Digest, t: Node, key: Bytes, working: int)
    requires Digest32(sha) && t.Inner?
    ensures var p := Step(sha, t, key, working);
      p.size == t.size && (p.left == [] <==> Less(key, t.key)) && (p.left == [] || p.right == [])
  {
    assert |Hash(sha, t.left, working)| == 32;
  }

  lemma {:induction false} PathStart(sha: Digest, t: Node, key: Bytes, working: int)
    requires Measured(t)
    ensures var path := Path(sha, t, key, working); Size(t) == if path != [] then path[0].size else 1
  {
  }

  predicate OneSided(path: seq<ProofInnerNode>) {
    forall i :: 0 <= i < |path| ==> path[i].left == [] || path[i].right == []
  }

  /** A path never has both children set. */
  lemma {:induction false} PathOneSided(sha: Digest, t: Node, key: Bytes, working: int)
    requires Digest32(sha)
    ensures OneSided(Path(sha, t, key, working))
  {
    if t.Inner? {
      StepSides(sha, t, key, working);
      var below := Path(sha, Child(t, key), key, working);
      PathOneSided(sha, Child(t, key), key, working);
      assert Path(sha, t, key, working) == [Step(sha, t, key, working)] + below;
    }
  }

  /** The index of a path is the position of its leaf. */
  lemma {:induction false} PathIndexIsPosition(sha: Digest, t: Node, key: Bytes, working: int)
    requires Digest32(sha) && Ordered(t) && Measured(t)
    ensures
      var i := IndexFrom(Path(sha, t, key, working), 0);
      0 <= i < |LeafSeq(t)| && LeafSeq(t)[i] == PathLeaf(t, key)
  {
    if t.Inner? {
      var c := Child(t, key);
      PathIndexIsPosition(sha, c, key, working);
      LeafSeqSorted(t.left);
      StepSides(sha, t, key, working);
      PathStart(sha, c, key, working);
      IndexUnfolds(Step(sha, t, key, working), Path(sha, c, key, working));
    }
  }

  /** For a key of the tree, the index of its path is the rank `get` returns. */
  lemma {:induction false} PathIndexIsRank(sha: Digest, t: Node, key: Bytes, working: int)
    requires Digest32(sha) && Avl(t) && key in Model(t)
    ensures OneSided(Path(sha, t, key, working)) && IndexFrom(Path(sha, t, key, working), 0) == Get(t, key).index
  {
    PathOneSided(sha, t, key, working);
    PathIndexIsPosition(sha, t, key, working);
    PathFindsKey(t, key);
    LeafMapIsModel(t);
    GetCorrect(t, key);
    LeafSeqSorted(t);
    RankUnique(LeafSeq(t), key, IndexFrom(Path(sha, t, key, working), 0), Get(t, key).index);
  }

  /** `Index` on the path to a key of the tree returns the key's rank. */
  method RankByPath(sha: Digest, t: Node, key: Bytes, working: int) returns (idx: int)
    requires Digest32(sha) && Avl(t) && key in Model(t)
    ensures idx == Get(t, key).index && IsRank(LeafSeq(t), key, idx)
  {
    PathIndexIsRank(sha, t, key, working);
    GetCorrect(t, key);
    idx := PathIndex(Path(sha, t, key, working));
  }

  // ----- Non-membership -----

  function GetNonMembershipProof(sha: Digest, root: Option<Node>, key: Bytes,
                                 working: int): Result<NonExistenceProof, ProofError> {
    if root.None? then Ok(NonExistenceProof(key, None, None))
    else
      var found := Get(root.value, key);
      if found.value.Some? then Err(KeyExists) else ProofsAround(sha, root.value, key, found.index, working)
  }

  /** The proofs of the leaves at `index - 1` and `index`, as far as they exist. */
  function ProofsAround(sha: Digest, t: Node, key: Bytes, index: int,
                        working: int): Result<NonExistenceProof, ProofError> {
    var left :- OptionalProof(sha, t, if index >= 1 then GetByIndex(t, index - 1) else None, working);
    var right :- OptionalProof(sha, t, GetByIndex(t, index), working);
    Ok(NonExistenceProof(key, left, right))
  }

  function OptionalProof(sha: Digest, t: Node, kv: Option<(Bytes, Bytes)>,
                         working: int): Result<Option<ExistenceProof>, ProofError> {
    if kv.None? then Ok(None)
    else
      var p :- CreateExistenceProof(sha, t, kv.value.0, working);
      Ok(Some(p))
  }

  /** `p` proves a key of the map, against the root hash. */
  predicate Proves(sha: Digest, t: Node, p: ExistenceProof, working: int) {
    p.key in Model(t) && p.value == Model(t)[p.key] && CalculateRoot(sha, p) == Hash(sha, t, working)
  }

  /** `p` proves the greatest key below `key`, or is absent because there is none. */
  predicate LeftNeighbour(sha: Digest, t: Node, key: Bytes, p: Option<ExistenceProof>, working: int) {
    && (p.Some? ==> Proves(sha, t, p.value, working) && Less(p.value.key, key))
    && (forall k :: k in Model(t) && Less(k, key) ==> p.Some? && Leq(k, p.value.key))
  }

  /** `p` proves the least key above `key`, or is absent because there is none. */
  predicate RightNeighbour(sha: Digest, t: Node, key: Bytes, p: Option<ExistenceProof>, working: int) {
    && (p.Some? ==> Proves(sha, t, p.value, working) && Less(key, p.value.key))
    && (forall k :: k in Model(t) && Less(key, k) ==> p.Some? && Leq(p.value.key, k))
  }

  /** Around the rank of an absent key lie its neighbours. */
  lemma {:induction false} RankNeighbours(t: Node, key: Bytes, i: int)
    requires Ordered(t) && key !in Model(t) && IsRank(LeafSeq(t), key, i)
    ensures SortedLeaves(LeafSeq(t))
    ensures forall j :: 0 <= j < |LeafSeq(t)| ==> LeafSeq(t)[j].key in Model(t)
    ensures i < |LeafSeq(t)| ==> Less(key, LeafSeq(t)[i].key)
    ensures forall k :: k in Model(t) && Less(k, key) ==> i >= 1 && Leq(k, LeafSeq(t)[i - 1].key)
    ensures forall k :: k in Model(t) && Less(key, k) ==> i < |LeafSeq(t)| && Leq(LeafSeq(t)[i].key, k)
  {
    LeafMapIsModel(t);
    LeafSeqSorted(t);
    LeafSeqMatchesMap(t);
    var s := LeafSeq(t);
    if i < |s| {
      Trichotomy(s[i].key, key);
    }
    forall k | k in Model(t)
      ensures Less(k, key) ==> i >= 1 && Leq(k, s[i - 1].key)
      ensures Less(key, k) ==> i < |s| && Leq(s[i].key, k)
    {
      var j := LeafIndex(t, k);
      BesideRank(s, key, i, j);
    }
  }

  lemma {:induction false} LeafIndex(t: Node, k: Bytes) returns (j: int)
    requires Ordered(t) && k in Model(t)
    ensures 0 <= j < |LeafSeq(t)| && LeafSeq(t)[j].key == k
  {
    LeafMapIsModel(t);
    LeafSeqMatchesMap(t);
    j :| 0 <= j < |LeafSeq(t)| && LeafSeq(t)[j] == LeafMap(t)[k];
  }

  lemma {:induction false} BesideRank(s: seq<Node>, key: Bytes, i: int, j: int)
    requires SortedLeaves(s) && IsRank(s, key, i) && 0 <= j < |s|
    ensures Less(s[j].key, key) ==> i >= 1 && Leq(s[j].key, s[i - 1].key)
    ensures Less(key, s[j].key) ==> i < |s| && Leq(s[i].key, s[j].key)
  {
    Trichotomy(s[j].key, key);
  }

  lemma {:induction false} OptionalProofCorrect(sha: Digest, t: Node, i: int, working: int)
    requires Digest32(sha) && Avl(t)
    ensures
      var r := OptionalProof(sha, t, GetByIndex(t, i), working);
      && r.Ok? && (r.value.Some? <==> 0 <= i < |LeafSeq(t)|)
      && (r.value.Some? ==> r.value.value.key == LeafSeq(t)[i].key && Proves(sha, t, r.value.value, working))
  {
    GetByIndexCorrect(t, i);
    if 0 <= i < |LeafSeq(t)| {
      LeafSeqMatchesMap(t);
      LeafMapIsModel(t);
      ExistenceProofCorrect(sha, t, LeafSeq(t)[i].key, working);
    }
  }

  /** The proof of the leaf before the rank is the left neighbour; at rank 0 there is none. */
  lemma {:induction false} LeftFound(sha: Digest, t: Node, key: Bytes, i: int, working: int,
                                    r: Result<Option<ExistenceProof>, ProofError>)
    requires Digest32(sha) && Avl(t) && key !in Model(t) && IsRank(LeafSeq(t), key, i) && i >= 1
    requires r == OptionalProof(sha, t, GetByIndex(t, i - 1), working)
    ensures r.Ok? && LeftNeighbour(sha, t, key, r.value, working)
  {
    RankNeighbours(t, key, i);
    OptionalProofCorrect(sha, t, i - 1, working);
  }

  lemma {:induction false} NothingLeft(sha: Digest, t: Node, key: Bytes, working: int)
    requires Ordered(t) && key !in Model(t) && IsRank(LeafSeq(t), key, 0)
    ensures LeftNeighbour(sha, t, key, None, working)
  {
    RankNeighbours(t, key, 0);
  }

  /** The proof of the leaf at the rank is the right neighbour. */
  lemma {:induction false} RightFound(sha: Digest, t: Node, key: Bytes, i: int, working: int,
                                     r: Result<Option<ExistenceProof>, ProofError>)
    requires Digest32(sha) && Avl(t) && key !in Model(t) && IsRank(LeafSeq(t), key, i)
    requires r == OptionalProof(sha, t, GetByIndex(t, i), working)
    ensures r.Ok? && RightNeighbour(sha, t, key, r.value, working)
  {
    RankNeighbours(t, key, i);
    OptionalProofCorrect(sha, t, i, working);
  }

  lemma {:induction false} NeighboursFound(sha: Digest, t: Node, key: Bytes, i: int, working: int)
    requires Digest32(sha) && Avl(t) && key !in Model(t) && IsRank(LeafSeq(t), key, i)
    ensures
      var r := ProofsAround(sha, t, key, i, working);
      r.Ok? && LeftNeighbour(sha, t, key, r.value.left, working) && RightNeighbour(sha, t, key, r.value.right, working)
  {
    if i >= 1 {
      LeftFound(sha, t, key, i, working, OptionalProof(sha, t, GetByIndex(t, i - 1), working));
    } else {
      NothingLeft(sha, t, key, working);
    }
    RightFound(sha, t, key, i, working, OptionalProof(sha, t, GetByIndex(t, i), working));
  }

  /** A non-membership proof exists for exactly the absent keys, and holds the proofs of its two neighbours. */
  lemma {:induction false} NonMembershipPicksNeighbours(sha: Digest, t: Node, key: Bytes, working: int)
    requires Digest32(sha) && Avl(t)
    ensures
      var r := GetNonMembershipProof(sha, Some(t), key, working);
      && (r.Ok? <==> key !in Model(t))
      && (r.Ok? ==>
            && r.value.key == key
            && LeftNeighbour(sha, t, key, r.value.left, working) && RightNeighbour(sha, t, key, r.value.right, working))
  {
    GetCorrect(t, key);
    if key !in Model(t) {
      NeighboursFound(sha, t, key, Get(t, key).index, working);
    }
  }

  /** With the empty tree included: it has a proof for every key, and no neighbours. */
  lemma {:induction false} NonMembershipExactly(sha: Digest, root: Option<Node>, key: Bytes, working: int)
    requires Digest32(sha) && AvlRoot(root)
    ensures
      var r := GetNonMembershipProof(sha, root, key, working);
      && (r == Err(KeyExists) <==> key in RootModel(root)) && (r.Ok? <==> key !in RootModel(root))
      && (r.Ok? ==>
            && r.value.key == key
            && (r.value.left.Some? <==> exists k :: k in RootModel(root) && Less(k, key))
            && (r.value.right.Some? <==> exists k :: k in RootModel(root) && Less(key, k)))
  {
    if root.Some? {
      GetCorrect(root.value, key);
      NonMembershipPicksNeighbours(sha, root.value, key, working);
    }
  }
}
