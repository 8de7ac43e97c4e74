/**
 * Node hashes. The digest function is a parameter: results hold for every function to 32 bytes,
 * and binding is stated relative to collisions among the strings that were actually hashed.
 */
module Merkle {
  import opened Base
  import opened Trees
  import opened Update
  import opened Encoding

  type Digest = Bytes -> Bytes

  ghost predicate Digest32(sha: Digest) {
    forall x: Bytes :: |sha(x)| == 32
  }

  /** Nodes that were not written yet hash with the version they are about to get. */
  function NodeVersion(t: Node, working: int): int {
    if t.nk.Some? then t.nk.value.version else working
  }

  /** Height, size and version, as every hashed string starts. */
  function HeaderBytes(height: int, size: int, version: int): Bytes {
    PutVarint(height) + (PutVarint(size) + PutVarint(version))
  }

  function Header(t: Node, working: int): Bytes {
    HeaderBytes(Height(t), Size(t), NodeVersion(t, working))
  }

  /** What `writeHashBytes` writes for a node. The key of an inner node is not part of it. */
  function Preimage(sha: Digest, t: Node, working: int): Bytes
    decreases t, 0
  {
    Header(t, working) +
    if t.Leaf? then PutBytes(t.key) + PutHash(sha(t.value))
    else PutHash(Hash(sha, t.left, working)) + PutHash(Hash(sha, t.right, working))
  }

  function Hash(sha: Digest, t: Node, working: int): Bytes
    decreases t, 1
  {
    sha(Preimage(sha, t, working))
  }

  /** The empty tree hashes as the empty string, as in section 2.1 of RFC 6962. */
  function RootHash(sha: Digest, root: Option<Node>, working: int): Bytes {
    if root.None? then sha([]) else Hash(sha, root.value, working)
  }

  /** Every string hashed on the way to the root hash. */
  function Hashed(sha: Digest, t: Node, working: int): set<Bytes> {
    {Preimage(sha, t, working)} +
    if t.Leaf? then {t.value} else Hashed(sha, t.left, working) + Hashed(sha, t.right, working)
  }

  function RootHashed(sha: Digest, root: Option<Node>, working: int): set<Bytes> {
    if root.None? then {[]} else Hashed(sha, root.value, working)
  }

  /** No two different strings, one from each side, share a digest. */
  predicate CollisionFree(sha: Digest, s: set<Bytes>, t: set<Bytes>) {
    forall x, y :: x in s && y in t && sha(x) == sha(y) ==> x == y
  }

  /** A tree without its nonces: shape, heights, sizes, versions, all keys and all values. */
  function Content(t: Node, working: int): Node {
    var nk := Some(NodeKey(NodeVersion(t, working), 0));
    if t.Leaf? then Leaf(nk, t.key, t.value)
    else Inner(nk, t.key, t.height, t.size, Content(t.left, working), Content(t.right, working))
  }

  lemma {:induction false} ContentKeepsMinKey(t: Node, working: int)
    ensures MinKey(Content(t, working)) == MinKey(t)
  {
    if t.Inner? {
      ContentKeepsMinKey(t.left, working);
    }
  }

  lemma {:induction false} HeadersSplit(h: int, s: int, v: int, a: Bytes, g: int, t: int, w: int, b: Bytes)
    requires HeaderBytes(h, s, v) + a == HeaderBytes(g, t, w) + b
    ensures h == g && s == t && v == w && a == b
  {
    assert HeaderBytes(h, s, v) + a == PutVarint(h) + (PutVarint(s) + (PutVarint(v) + a));
    assert HeaderBytes(g, t, w) + b == PutVarint(g) + (PutVarint(t) + (PutVarint(w) + b));
    VarintPrefixFree(h, g, PutVarint(s) + (PutVarint(v) + a), PutVarint(t) + (PutVarint(w) + b));
    VarintPrefixFree(s, t, PutVarint(v) + a, PutVarint(w) + b);
    VarintPrefixFree(v, w, a, b);
  }

  lemma {:induction false} HeaderPrefixFree(s: Node, t: Node, v: int, w: int, a: Bytes, b: Bytes)
    requires Header(s, v) + a == Header(t, w) + b
    ensures Height(s) == Height(t) && Size(s) == Size(t) && NodeVersion(s, v) == NodeVersion(t, w) && a == b
  {
    HeadersSplit(Height(s), Size(s), NodeVersion(s, v), a, Height(t), Size(t), NodeVersion(t, w), b);
  }

  lemma {:induction false} HashPairSplits(a: Bytes, b: Bytes, c: Bytes, d: Bytes)
    requires |a| == |b| == |c| == |d| == 32
    requires PutHash(a) + PutHash(b) == PutHash(c) + PutHash(d)
    ensures a == c && b == d
  {
    var s, t := PutHash(a) + PutHash(b), PutHash(c) + PutHash(d);
    assert a == s[1..33] == t[1..33] == c;
    assert b == s[34..] == t[34..] == d;
  }

  lemma {:induction false} LeafTailSplits(k: Bytes, h: Bytes, l: Bytes, g: Bytes)
    requires PutBytes(k) + PutHash(h) == PutBytes(l) + PutHash(g)
    ensures k == l && h == g
  {
    BytesPrefixFree(k, l, PutHash(h), PutHash(g));
    assert h == PutHash(h)[1..] == PutHash(g)[1..] == g;
  }

  /**
   * The root hash binds the whole tree: two well-formed trees with equal hashes agree in shape, versions,
   * leaf keys, values and routing keys, unless two strings hashed for them collide.
   */
  lemma {:induction false} HashBinds(sha: Digest, s: Node, t: Node, v: int, w: int)
    requires Digest32(sha) && Ordered(s) && Measured(s) && Ordered(t) && Measured(t)
    requires CollisionFree(sha, Hashed(sha, s, v), Hashed(sha, t, w))
    requires Hash(sha, s, v) == Hash(sha, t, w)
    ensures Content(s, v) == Content(t, w)
  {
    var p, q := Preimage(sha, s, v), Preimage(sha, t, w);
    assert p in Hashed(sha, s, v) && q in Hashed(sha, t, w);
    assert p == q;
    MeasuredBounds(s);
    MeasuredBounds(t);
    if s.Leaf? {
      var a, b := PutBytes(s.key) + PutHash(sha(s.value)), q[|Header(t, w)|..];
      assert q == Header(t, w) + b;
      HeaderPrefixFree(s, t, v, w, a, b);
      assert b == PutBytes(t.key) + PutHash(sha(t.value));
      LeafTailSplits(s.key, sha(s.value), t.key, sha(t.value));
      assert s.value in Hashed(sha, s, v) && t.value in Hashed(sha, t, w);
    } else {
      var a := PutHash(Hash(sha, s.left, v)) + PutHash(Hash(sha, s.right, v));
      var b := q[|Header(t, w)|..];
      assert q == Header(t, w) + b;
      HeaderPrefixFree(s, t, v, w, a, b);
      assert b == PutHash(Hash(sha, t.left, w)) + PutHash(Hash(sha, t.right, w));
      HashPairSplits(Hash(sha, s.left, v), Hash(sha, s.right, v), Hash(sha, t.left, w), Hash(sha, t.right, w));
      HashBinds(sha, s.left, t.left, v, w);
      HashBinds(sha, s.right, t.right, v, w);
      ContentKeepsMinKey(s.right, v);
      ContentKeepsMinKey(t.right, w);
    }
  }

  /** The same with the empty tree included. */
  lemma {:induction false} RootHashBinds(sha: Digest, s: Option<Node>, t: Option<Node>, v: int, w: int)
    requires Digest32(sha) && AvlRoot(s) && AvlRoot(t)
    requires CollisionFree(sha, RootHashed(sha, s, v), RootHashed(sha, t, w))
    requires RootHash(sha, s, v) == RootHash(sha, t, w)
    ensures s.Some? == t.Some? && (s.Some? ==> Content(s.value, v) == Content(t.value, w))
  {
    if s.Some? {
      PreimageHashed(sha, s.value, v);
    }
    if t.Some? {
      PreimageHashed(sha, t.value, w);
    }
    if s.Some? && t.Some? {
      HashBinds(sha, s.value, t.value, v, w);
    }
  }

  lemma {:induction false} PreimageHashed(sha: Digest, t: Node, working: int)
    ensures Preimage(sha, t, working) != [] && Preimage(sha, t, working) in Hashed(sha, t, working)
  {
  }

  /** Trees with the same content have the same hash: the nonces are not hashed. */
  lemma {:induction false} HashIgnoresNonces(sha: Digest, s: Node, t: Node, v: int, w: int)
    requires Content(s, v) == Content(t, w)
    ensures Hash(sha, s, v) == Hash(sha, t, w)
  {
    if s.Inner? {
      HashIgnoresNonces(sha, s.left, t.left, v, w);
      HashIgnoresNonces(sha, s.right, t.right, v, w);
    }
  }
}
