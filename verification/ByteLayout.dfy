/**
 * The fields of a hashed node and of a stored node, in the order they are written. A layout is read with the decoders,
 * so that what is stated of the bytes does not pass through the functions that write them.
 */
module ByteLayout {
  import opened Base
  import opened Encoding
  import opened Codec
  import opened Trees
  import opened Merkle

  /** Fields in order: signed numbers and length-prefixed strings. */
  datatype Fields = End | Number(x: int, rest: Fields) | Text(bytes: Bytes, rest: Fields)

  /** What is left of a buffer once the fields have been decoded one after another, if each has the given value. */
  function After(f: Fields, buf: Bytes): Option<Bytes> {
    match f
    case End => Some(buf)
    case Number(x, rest) =>
      var r := TakeVarint(buf);
      if r.Ok? && r.value.0 == x then After(rest, r.value.1) else None
    case Text(bytes, rest) =>
      var r := TakeBytes(buf);
      if r.Ok? && r.value.0 == bytes then After(rest, r.value.1) else None
  }

  /** The buffer consists of these fields and nothing else. */
  predicate Reads(f: Fields, buf: Bytes) {
    After(f, buf) == Some([])
  }

  lemma {:induction false} ReadsNumber(x: int, rest: Fields, tail: Bytes)
    requires IsInt64(x)
    ensures After(Number(x, rest), PutVarint(x) + tail) == After(rest, tail)
  {
    TakeVarintBack(x, tail);
  }

  lemma {:induction false} ReadsText(bytes: Bytes, rest: Fields, tail: Bytes)
    requires |bytes| < TWO_63 - 1
    ensures After(Text(bytes, rest), PutBytes(bytes) + tail) == After(rest, tail)
  {
    TakeBytesBack(bytes, tail);
  }

  // ----- What is hashed -----

  /** Height, size and version, in this order. */
  lemma {:induction false} ReadsHeader(height: int, size: int, version: int, rest: Fields, tail: Bytes)
    requires IsInt64(height) && IsInt64(size) && IsInt64(version)
    ensures After(Number(height, Number(size, Number(version, rest))), HeaderBytes(height, size, version) + tail) ==
      After(rest, tail)
  {
    Regroup(PutVarint(height), PutVarint(size) + PutVarint(version), tail);
    ReadsNumber(height, Number(size, Number(version, rest)), (PutVarint(size) + PutVarint(version)) + tail);
    Regroup(PutVarint(size), PutVarint(version), tail);
    ReadsNumber(size, Number(version, rest), PutVarint(version) + tail);
    ReadsNumber(version, rest, tail);
  }

  lemma {:induction false} ReadsTwoTexts(a: Bytes, b: Bytes)
    requires |a| < TWO_63 - 1 && |b| < TWO_63 - 1
    ensures Reads(Text(a, Text(b, End)), PutBytes(a) + PutBytes(b))
  {
    ReadsText(a, Text(b, End), PutBytes(b));
    ReadsText(b, End, []);
    assert PutBytes(b) + [] == PutBytes(b);
  }

  /** The version a node is hashed with. */
  function HashVersion(t: Node, working: int): int {
    match t.nk
    case Some(nk) => nk.version
    case None => working
  }

  /** A leaf hashes its height 0, its size 1, its version, its key and the digest of its value, in this order. */
  lemma {:induction false} LeafHashes(sha: Digest, t: Node, working: int)
    requires Digest32(sha) && t.Leaf? && IsInt64(HashVersion(t, working)) && |t.key| < TWO_63 - 1
    ensures Reads(Number(0, Number(1, Number(HashVersion(t, working), Text(t.key, Text(sha(t.value), End))))),
                  Preimage(sha, t, working))
  {
    var tail := PutBytes(t.key) + PutHash(sha(t.value));
    ReadsHeader(0, 1, HashVersion(t, working), Text(t.key, Text(sha(t.value), End)), tail);
    HashIsBytes(sha(t.value));
    ReadsTwoTexts(t.key, sha(t.value));
  }

  /** An inner node hashes its height, its size, its version and the hashes of its children, left before right. */
  lemma {:induction false} InnerHashes(sha: Digest, t: Node, working: int)
    requires Digest32(sha) && t.Inner? && IsInt64(t.height) && IsInt64(t.size) && IsInt64(HashVersion(t, working))
    ensures Reads(Number(t.height, Number(t.size, Number(HashVersion(t, working),
                    Text(Hash(sha, t.left, working), Text(Hash(sha, t.right, working), End))))),
                  Preimage(sha, t, working))
  {
    var l, r := Hash(sha, t.left, working), Hash(sha, t.right, working);
    ReadsHeader(t.height, t.size, HashVersion(t, working), Text(l, Text(r, End)), PutHash(l) + PutHash(r));
    HashIsBytes(l);
    HashIsBytes(r);
    ReadsTwoTexts(l, r);
  }

  /** The fields that a tree hashes at its root. */
  function HashFields(sha: Digest, t: Node, working: int): Fields {
    match t
    case Leaf(_, key, value) => Number(0, Number(1, Number(HashVersion(t, working), Text(key, Text(sha(value), End)))))
    case Inner(_, _, height, size, left, right) =>
      Number(height, Number(size, Number(HashVersion(t, working),
        Text(Hash(sha, left, working), Text(Hash(sha, right, working), End)))))
  }

  ghost predicate IsDigestOf(sha: Digest, f: Fields, hash: Bytes) {
    exists buf :: Reads(f, buf) && hash == sha(buf)
  }

  /** The root hash is the digest of the fields of the root, and that of the empty string for the empty tree. */
  lemma {:induction false} RootHashes(sha: Digest, root: Option<Node>, working: int)
    requires Digest32(sha)
    requires root.Some? ==> IsInt64(Height(root.value)) && IsInt64(Size(root.value)) && |root.value.key| < TWO_63 - 1
    requires root.Some? ==> IsInt64(HashVersion(root.value, working))
    ensures root.None? ==> RootHash(sha, root, working) == sha([])
    ensures root.Some? ==> IsDigestOf(sha, HashFields(sha, root.value, working), RootHash(sha, root, working))
  {
    if root.Some? {
      if root.value.Leaf? {
        LeafHashes(sha, root.value, working);
      } else {
        InnerHashes(sha, root.value, working);
      }
      assert RootHash(sha, root, working) == sha(Preimage(sha, root.value, working));
    }
  }

  /** The first bytes that a leaf of an early version hashes. */
  lemma {:induction false} LeafStarts(sha: Digest, t: Node, working: int)
    requires t.Leaf? && 0 <= HashVersion(t, working) < 64
    ensures [0, 2, (2 * HashVersion(t, working)) as byte] <= Preimage(sha, t, working)
  {
    var v := HashVersion(t, working);
    assert PutVarint(0) == [0] && PutVarint(1) == [2] && PutVarint(v) == [(2 * v) as byte];
    assert Header(t, working) == [0, 2, (2 * v) as byte];
  }

  // ----- What is stored -----

  /** A child key of twelve bytes is written as its version and its nonce, one of the older format as a string. */
  function ChildFields(hashed: bool, k: Bytes, rest: Fields): Fields
    requires hashed || |k| == 12
  {
    if hashed then Text(k, rest) else Number(KeyVersion(k), Number(KeyNonce(k), rest))
  }

  /** Height, size, key, and then the value, or the hash, the mode and the two child keys. */
  function NodeFields(n: StoredNode, mode: int): Fields
    requires n.body.InnerBody? ==> (mode in {1, 3} || |n.body.left| == 12) && (mode in {2, 3} || |n.body.right| == 12)
  {
    Number(n.height, Number(n.size, Text(n.key,
      match n.body
      case LeafBody(value) => Text(value, End)
      case InnerBody(hash, left, right) =>
        Text(hash, Number(mode, ChildFields(mode in {1, 3}, left, ChildFields(mode in {2, 3}, right, End)))))))
  }

  lemma {:induction false} ReadsChild(k: Bytes, rest: Fields, tail: Bytes)
    requires |k| == 12 || |k| == 32
    ensures After(ChildFields(|k| == 32, k, rest), WriteChild(k) + tail) == After(rest, tail)
  {
    if |k| == 32 {
      HashIsBytes(k);
      ReadsText(k, rest, tail);
    } else {
      KeyBytesWritten(k);
      var v, n := KeyVersion(k), KeyNonce(k);
      assert WriteChild(k) + tail == PutVarint(v) + (PutVarint(n) + tail);
      ReadsNumber(v, Number(n, rest), PutVarint(n) + tail);
      ReadsNumber(n, rest, tail);
    }
  }

  lemma {:induction false} ReadsChildren(left: Bytes, right: Bytes)
    requires (|left| == 12 || |left| == 32) && (|right| == 12 || |right| == 32)
    ensures Reads(ChildFields(|left| == 32, left, ChildFields(|right| == 32, right, End)),
                  WriteChild(left) + WriteChild(right))
  {
    ReadsChild(left, ChildFields(|right| == 32, right, End), WriteChild(right));
    ReadsChild(right, End, []);
    assert WriteChild(right) + [] == WriteChild(right);
  }

  lemma {:induction false} ReadsBody(hash: Bytes, mode: int, f: Fields, tail: Bytes)
    requires |hash| == 32 && IsInt64(mode)
    ensures After(Text(hash, Number(mode, f)), PutHash(hash) + (PutVarint(mode) + tail)) == After(f, tail)
  {
    HashIsBytes(hash);
    ReadsText(hash, Number(mode, f), PutVarint(mode) + tail);
    ReadsNumber(mode, f, tail);
  }

  /** A stored node is its fields in order; the mode tells which child keys are hashes. */
  lemma {:induction false} NodeIsWritten(n: StoredNode, mode: int)
    requires Writable(n)
    requires n.body.InnerBody? ==>
      mode == (if |n.body.left| == 32 then 1 else 0) + (if |n.body.right| == 32 then 2 else 0)
    ensures Reads(NodeFields(n, mode), WriteNode(n))
  {
    var f := NodeFields(n, mode);
    ReadsNumber(n.height, f.rest, PutVarint(n.size) + (PutBytes(n.key) + WriteBody(n.body)));
    ReadsNumber(n.size, f.rest.rest, PutBytes(n.key) + WriteBody(n.body));
    ReadsText(n.key, f.rest.rest.rest, WriteBody(n.body));
    match n.body
    case LeafBody(value) =>
      ReadsText(value, End, []);
      assert PutBytes(value) + [] == PutBytes(value);
    case InnerBody(hash, left, right) =>
      ReadsBody(hash, mode, f.rest.rest.rest.rest.rest, WriteChild(left) + WriteChild(right));
      ReadsChildren(left, right);
  }

  // ----- What is read -----

  /** A mode is accepted, and each child key that it does not call a hash has twelve bytes. */
  predicate Fits(n: StoredNode, mode: int) {
    && n.body.InnerBody? && 0 <= mode < 4
    && (mode in {1, 3} || |n.body.left| == 12) && (mode in {2, 3} || |n.body.right| == 12)
  }

  /** The buffer starts with the fields of `n`, under a mode and a height that are accepted. */
  predicate Laid(n: StoredNode, mode: int, buf: Bytes) {
    && -128 <= n.height < 128 && (n.height == 0 <==> n.body.LeafBody?)
    && (n.body.InnerBody? ==> Fits(n, mode))
    && After(NodeFields(n, mode), buf).Some?
  }

  lemma {:induction false} ChildTaken(hashed: bool, buf: Bytes, k: Bytes, tail: Bytes, rest: Fields)
    requires TakeChild(hashed, buf) == Ok((k, tail))
    ensures (hashed || |k| == 12) && After(ChildFields(hashed, k, rest), buf) == After(rest, tail)
  {
    if !hashed {
      var version := TakeVarint(buf).value;
      KeyBytesRead(version.0, TakeVarint(version.1).value.0);
    }
  }

  lemma {:induction false} ChildLaid(hashed: bool, buf: Bytes, k: Bytes, rest: Fields) returns (tail: Bytes)
    requires (hashed || |k| == 12) && After(ChildFields(hashed, k, rest), buf).Some?
    ensures TakeChild(hashed, buf) == Ok((k, tail)) && After(rest, tail) == After(ChildFields(hashed, k, rest), buf)
  {
    if hashed {
      tail := TakeBytes(buf).value.1;
    } else {
      KeyBytesWritten(k);
      tail := TakeVarint(TakeVarint(buf).value.1).value.1;
    }
  }

  lemma {:induction false} NumberStep(x: int, rest: Fields, buf: Bytes)
    ensures After(Number(x, rest), buf).Some? <==>
      TakeVarint(buf).Ok? && TakeVarint(buf).value.0 == x && After(rest, TakeVarint(buf).value.1).Some?
  {
  }

  lemma {:induction false} TextStep(bytes: Bytes, rest: Fields, buf: Bytes)
    ensures After(Text(bytes, rest), buf).Some? <==>
      TakeBytes(buf).Ok? && TakeBytes(buf).value.0 == bytes && After(rest, TakeBytes(buf).value.1).Some?
  {
  }

  /** The two child keys under a mode. */
  function Children(left: Bytes, right: Bytes, mode: int): Fields
    requires (mode in {1, 3} || |left| == 12) && (mode in {2, 3} || |right| == 12)
  {
    ChildFields(mode in {1, 3}, left, ChildFields(mode in {2, 3}, right, End))
  }

  lemma {:induction false} ModesOf(mode: int)
    requires 0 <= mode < 4
    ensures (mode % 2 != 0) == (mode in {1, 3}) && (mode / 2 % 2 != 0) == (mode in {2, 3})
  {
  }

  lemma {:induction false} BothTaken(a: bool, b: bool, buf: Bytes, left: (Bytes, Bytes), right: (Bytes, Bytes))
    requires TakeChild(a, buf) == Ok(left) && TakeChild(b, left.1) == Ok(right)
    ensures (a || |left.0| == 12) && (b || |right.0| == 12)
    ensures After(ChildFields(a, left.0, ChildFields(b, right.0, End)), buf) == Some(right.1)
  {
    ChildTaken(b, left.1, right.0, right.1, End);
    ChildTaken(a, buf, left.0, left.1, ChildFields(b, right.0, End));
  }

  lemma {:induction false} ChildrenTaken(h: int, s: int, key: Bytes, hash: Bytes, mode: int, buf: Bytes, n: StoredNode)
    requires 0 <= mode < 4 && MakeChildren(h, s, key, hash, mode, buf) == Ok(n)
    ensures Fits(n, mode) && n == StoredNode(h, s, key, InnerBody(hash, n.body.left, n.body.right))
    ensures After(Children(n.body.left, n.body.right, mode), buf).Some?
  {
    var a, b := mode % 2 != 0, mode / 2 % 2 != 0;
    var left := TakeChild(a, buf).value;
    var right := TakeChild(b, left.1).value;
    ModesOf(mode);
    BothTaken(a, b, buf, left, right);
  }

  lemma {:induction false} ChildrenLaid(n: StoredNode, mode: int, buf: Bytes)
    requires Fits(n, mode) && After(Children(n.body.left, n.body.right, mode), buf).Some?
    ensures MakeChildren(n.height, n.size, n.key, n.body.hash, mode, buf) == Ok(n)
  {
    ModesOf(mode);
    var tail := ChildLaid(mode in {1, 3}, buf, n.body.left, ChildFields(mode in {2, 3}, n.body.right, End));
    var end := ChildLaid(mode in {2, 3}, tail, n.body.right, End);
  }

  lemma {:induction false} InnerTaken(h: int, s: int, key: Bytes, buf: Bytes, n: StoredNode) returns (mode: int)
    requires MakeInner(h, s, key, buf) == Ok(n)
    ensures Fits(n, mode) && n == StoredNode(h, s, key, n.body)
    ensures After(Text(n.body.hash, Number(mode, Children(n.body.left, n.body.right, mode))), buf).Some?
  {
    var hash := TakeBytes(buf).value;
    var m := TakeVarint(hash.1).value;
    mode := m.0;
    ChildrenTaken(h, s, key, hash.0, mode, m.1, n);
    NumberStep(mode, Children(n.body.left, n.body.right, mode), hash.1);
    TextStep(hash.0, Number(mode, Children(n.body.left, n.body.right, mode)), buf);
  }

  lemma {:induction false} InnerLaid(n: StoredNode, mode: int, buf: Bytes)
    requires Fits(n, mode)
    requires After(Text(n.body.hash, Number(mode, Children(n.body.left, n.body.right, mode))), buf).Some?
    ensures MakeInner(n.height, n.size, n.key, buf) == Ok(n)
  {
    TextStep(n.body.hash, Number(mode, Children(n.body.left, n.body.right, mode)), buf);
    NumberStep(mode, Children(n.body.left, n.body.right, mode), TakeBytes(buf).value.1);
    ChildrenLaid(n, mode, TakeVarint(TakeBytes(buf).value.1).value.1);
  }

  lemma {:induction false} NodeTaken(buf: Bytes, n: StoredNode) returns (mode: int)
    requires MakeNode(buf) == Ok(n)
    ensures Laid(n, mode, buf)
  {
    mode := 0;
    var height := TakeVarint(buf).value;
    var size := TakeVarint(height.1).value;
    var key := TakeBytes(size.1).value;
    if height.0 != 0 {
      mode := InnerTaken(height.0, size.0, key.0, key.1, n);
    } else {
      TextStep(n.body.value, End, key.1);
    }
    StepsTo(n, mode, buf);
  }

  /** The first three fields of a node. */
  lemma {:induction false} StepsTo(n: StoredNode, mode: int, buf: Bytes)
    requires n.body.InnerBody? ==> Fits(n, mode)
    ensures var f := NodeFields(n, mode);
      After(f, buf).Some? <==>
        && TakeVarint(buf).Ok? && TakeVarint(buf).value.0 == n.height
        && var size := TakeVarint(TakeVarint(buf).value.1);
           && size.Ok? && size.value.0 == n.size
           && var key := TakeBytes(size.value.1);
              && key.Ok? && key.value.0 == n.key && After(f.rest.rest.rest, key.value.1).Some?
  {
    var f := NodeFields(n, mode);
    NumberStep(n.height, f.rest, buf);
    if TakeVarint(buf).Ok? {
      NumberStep(n.size, f.rest.rest, TakeVarint(buf).value.1);
      if TakeVarint(TakeVarint(buf).value.1).Ok? {
        TextStep(n.key, f.rest.rest.rest, TakeVarint(TakeVarint(buf).value.1).value.1);
      }
    }
  }

  lemma {:induction false} NodeLaid(buf: Bytes, n: StoredNode, mode: int)
    requires Laid(n, mode, buf)
    ensures MakeNode(buf) == Ok(n)
  {
    StepsTo(n, mode, buf);
    var size := TakeVarint(TakeVarint(buf).value.1).value;
    var key := TakeBytes(size.1).value;
    if n.body.InnerBody? {
      InnerLaid(n, mode, key.1);
    } else {
      TextStep(n.body.value, End, key.1);
    }
  }

  /** `MakeNode` accepts exactly the buffers that start with the fields of a node, and returns that node. */
  lemma {:induction false} NodeIsRead(buf: Bytes, n: StoredNode)
    ensures MakeNode(buf) == Ok(n) <==> exists mode :: Laid(n, mode, buf)
  {
    if MakeNode(buf) == Ok(n) {
      var mode := NodeTaken(buf, n);
    }
    if mode :| Laid(n, mode, buf) {
      NodeLaid(buf, n, mode);
    }
  }

  // ----- Root records -----

  /** The empty root is the empty string; a reference is the prefix, the version and the nonce, big-endian. */
  lemma {:induction false} RecordIsWritten(version: int, nonce: int)
    requires IsInt64(version) && 0 <= nonce < 0x1_0000_0000
    ensures WriteRecord(EmptyRoot) == []
    ensures
      var bz := WriteRecord(Reference(version, nonce));
      && |bz| == 13 && bz[0] == 0x73
      && FromBigEndian(bz[1..9]) == (if version < 0 then version + TWO_64 else version)
      && FromBigEndian(bz[9..]) == nonce
  {
    Pow256Values();
    BigEndianReads(version % TWO_64, 8);
    BigEndianReads(nonce, 4);
    var bz := WriteRecord(Reference(version, nonce));
    assert bz[1..9] == BigEndian(version % TWO_64, 8) && bz[9..] == BigEndian(nonce, 4);
  }

  /** A reference of the older format holds the version alone, and stands for the root of that version. */
  lemma {:induction false} OlderReferenceIsRead(version: int)
    requires IsInt64(version)
    ensures ReadRecord([0x73] + BigEndian(version % TWO_64, 8)) == Ok(Reference(version, 1))
  {
    Pow256Values();
    BigEndianReads(version % TWO_64, 8);
    var bz := [0x73] + BigEndian(version % TWO_64, 8);
    assert (bz[1..] + [0, 0, 0, 1])[..8] == BigEndian(version % TWO_64, 8);
  }
}
