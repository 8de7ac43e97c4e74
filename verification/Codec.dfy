/**
 * The bytes of the store: node keys as twelve big-endian bytes, nodes as `writeBytes` and
 * `MakeNode` treat them, and the three kinds of root record that `GetRoot` tells apart.
 */
module Codec {
  import opened Base
  import opened Encoding

  // ----- Lexicographic order by a witness -----

  lemma {:induction false} LessFromWitness(a: Bytes, b: Bytes, i: nat, j: nat)
    requires j <= i <= |a| && i < |b| && a[..i] == b[..i] && (i == |a| || a[i] < b[i])
    ensures LessFrom(a, b, j)
    decreases i - j
  {
    if j < i {
      assert a[j] == a[..i][j] == b[..i][j] == b[j];
      LessFromWitness(a, b, i, j + 1);
    }
  }

  lemma {:induction false} FirstDifference(a: Bytes, b: Bytes, j: nat) returns (i: nat)
    requires j <= |a| && j <= |b| && a[..j] == b[..j] && LessFrom(a, b, j)
    ensures i <= |a| && i < |b| && a[..i] == b[..i] && (i == |a| || a[i] < b[i])
    decreases |a| - j
  {
    i := j;
    if j < |a| && a[j] == b[j] {
      assert a[..j + 1] == a[..j] + [a[j]] == b[..j + 1];
      i := FirstDifference(a, b, j + 1);
    }
  }

  /** Equal-length prefixes that differ decide the order. */
  lemma {:induction false} PrefixDecides(p: Bytes, q: Bytes, a: Bytes, b: Bytes)
    requires |p| == |q| && Less(p, q)
    ensures Less(p + a, q + b)
  {
    var i := FirstDifference(p, q, 0);
    assert (p + a)[..i] == p[..i] && (q + b)[..i] == q[..i];
    LessFromWitness(p + a, q + b, i, 0);
  }

  lemma {:induction false} CommonPrefix(p: Bytes, a: Bytes, b: Bytes)
    requires Less(a, b)
    ensures Less(p + a, p + b)
  {
    var i := FirstDifference(a, b, 0);
    assert (p + a)[..|p| + i] == p + a[..i] && (p + b)[..|p| + i] == p + b[..i];
    LessFromWitness(p + a, p + b, |p| + i, 0);
  }

  // ----- Big-endian integers -----

  function Pow256(n: nat): nat {
    if n == 0 then 1 else 256 * Pow256(n - 1)
  }

  function BigEndian(x: nat, n: nat): (bz: Bytes)
    ensures |bz| == n
  {
    if n == 0 then [] else BigEndian(x / 256, n - 1) + [(x % 256) as byte]
  }

  function FromBigEndian(bz: Bytes): nat {
    if bz == [] then 0 else 256 * FromBigEndian(bz[..|bz| - 1]) + bz[|bz| - 1] as int
  }

  lemma {:induction false} BigEndianReads(x: nat, n: nat)
    requires x < Pow256(n)
    ensures FromBigEndian(BigEndian(x, n)) == x
  {
    if n > 0 {
      BigEndianReads(x / 256, n - 1);
      assert BigEndian(x, n)[..n - 1] == BigEndian(x / 256, n - 1);
    }
  }

  lemma {:induction false} BigEndianWrites(bz: Bytes)
    ensures FromBigEndian(bz) < Pow256(|bz|)
    ensures BigEndian(FromBigEndian(bz), |bz|) == bz
  {
    if bz != [] {
      var front := bz[..|bz| - 1];
      BigEndianWrites(front);
      assert bz == front + [bz[|bz| - 1]];
    }
  }

  /** Byte order is numeric order. */
  lemma {:induction false} BigEndianMonotone(x: nat, y: nat, n: nat)
    requires x < y < Pow256(n)
    ensures Less(BigEndian(x, n), BigEndian(y, n))
  {
    var p, q := BigEndian(x / 256, n - 1), BigEndian(y / 256, n - 1);
    var a, b := [(x % 256) as byte], [(y % 256) as byte];
    if x / 256 < y / 256 {
      BigEndianMonotone(x / 256, y / 256, n - 1);
      PrefixDecides(p, q, a, b);
    } else {
      assert Less(a, b);
      CommonPrefix(p, a, b);
    }
  }

  lemma {:induction false} Pow256Values()
    ensures Pow256(4) == 0x1_0000_0000 && Pow256(8) == TWO_64
  {
    assert Pow256(2) == 0x1_0000;
    assert Pow256(6) == 0x1_0000_0000_0000;
  }

  // ----- Node keys -----

  const PREFIX: byte := 0x73

  /** The twelve bytes of a node key: version as a uint64, nonce as a uint32. */
  function KeyBytes(version: int, nonce: int): (bz: Bytes)
    requires IsInt64(version) && 0 <= nonce < 0x1_0000_0000
    ensures |bz| == 12
  {
    BigEndian(version % TWO_64, 8) + BigEndian(nonce, 4)
  }

  function KeyVersion(bz: Bytes): int
    requires |bz| == 12
  {
    var u := FromBigEndian(bz[..8]);
    if u < TWO_63 then u else u - TWO_64
  }

  function KeyNonce(bz: Bytes): int
    requires |bz| == 12
  {
    FromBigEndian(bz[8..])
  }

  lemma {:induction false} KeyBytesRead(version: int, nonce: int)
    requires IsInt64(version) && 0 <= nonce < 0x1_0000_0000
    ensures KeyVersion(KeyBytes(version, nonce)) == version
    ensures KeyNonce(KeyBytes(version, nonce)) == nonce
  {
    var bz := KeyBytes(version, nonce);
    assert bz[..8] == BigEndian(version % TWO_64, 8) && bz[8..] == BigEndian(nonce, 4);
    Pow256Values();
    BigEndianReads(version % TWO_64, 8);
    BigEndianReads(nonce, 4);
  }

  lemma {:induction false} KeyBytesWritten(bz: Bytes)
    requires |bz| == 12
    ensures IsInt64(KeyVersion(bz)) && 0 <= KeyNonce(bz) < 0x1_0000_0000
    ensures KeyBytes(KeyVersion(bz), KeyNonce(bz)) == bz
  {
    Pow256Values();
    BigEndianWrites(bz[..8]);
    BigEndianWrites(bz[8..]);
    assert KeyVersion(bz) % TWO_64 == FromBigEndian(bz[..8]);
    assert bz == bz[..8] + bz[8..];
  }

  /** The full database key `s<version><nonce>`. */
  function DbKey(version: int, nonce: int): Bytes
    requires IsInt64(version) && 0 <= nonce < 0x1_0000_0000
  {
    [PREFIX] + KeyBytes(version, nonce)
  }

  /** The bound `s<version>` of a range scan, the version as a uint64. */
  function DbVersionBound(version: int): Bytes
    requires -TWO_63 <= version <= TWO_63
  {
    [PREFIX] + BigEndian(version % TWO_64, 8)
  }

  lemma {:induction false} BoundAbove(version: int, rest: Bytes, u: int)
    requires 0 <= version < u < TWO_64
    ensures Less([PREFIX] + (BigEndian(version, 8) + rest), [PREFIX] + BigEndian(u, 8))
  {
    Pow256Values();
    BigEndianMonotone(version, u, 8);
    PrefixDecides(BigEndian(version, 8), BigEndian(u, 8), rest, []);
    assert BigEndian(u, 8) + [] == BigEndian(u, 8);
    CommonPrefix([PREFIX], BigEndian(version, 8) + rest, BigEndian(u, 8));
  }

  lemma {:induction false} BoundBelow(version: int, rest: Bytes, u: int)
    requires 0 <= u < version < TWO_64
    ensures Less([PREFIX] + BigEndian(u, 8), [PREFIX] + (BigEndian(version, 8) + rest))
  {
    Pow256Values();
    BigEndianMonotone(u, version, 8);
    PrefixDecides(BigEndian(u, 8), BigEndian(version, 8), [], rest);
    assert BigEndian(u, 8) + [] == BigEndian(u, 8);
    CommonPrefix([PREFIX], BigEndian(u, 8), BigEndian(version, 8) + rest);
  }

  lemma {:induction false} BoundAt(p: Bytes, rest: Bytes)
    requires rest != []
    ensures Less([PREFIX] + p, [PREFIX] + (p + rest))
  {
    var b, k := [PREFIX] + p, [PREFIX] + (p + rest);
    assert k[..|b|] == b;
    LessFromWitness(b, k, |b|, 0);
  }

  lemma {:induction false} KeyAgainstBound(version: int, nonce: int, bound: int)
    requires 0 <= version < TWO_63 && 0 <= nonce < 0x1_0000_0000 && -TWO_63 <= bound <= TWO_63
    ensures Less(DbKey(version, nonce), DbVersionBound(bound)) <==> version < bound || bound < 0
  {
    Pow256Values();
    var u, rest := bound % TWO_64, BigEndian(nonce, 4);
    assert u == if bound < 0 then bound + TWO_64 else bound;
    KeyBytesOf(version, nonce);
    if version < u {
      BoundAbove(version, rest, u);
    } else {
      if u < version {
        BoundBelow(version, rest, u);
      } else {
        BoundAt(BigEndian(u, 8), rest);
      }
      Trichotomy(DbKey(version, nonce), DbVersionBound(bound));
    }
  }

  /**
   * A byte-range scan from `s<from>` to `s<latest+1>` visits exactly the keys of versions from..latest, and nothing
   * when the lower bound is negative.
   */
  lemma {:induction false} RangeScanIsVersionRange(version: int, nonce: int, from: int, latest: int)
    requires 0 <= version < TWO_63 && 0 <= nonce < 0x1_0000_0000 && IsInt64(from) && 0 <= latest < TWO_63
    ensures
      var k := DbKey(version, nonce);
      !Less(k, DbVersionBound(from)) && Less(k, DbVersionBound(latest + 1)) <==> 0 <= from <= version <= latest
  {
    KeyAgainstBound(version, nonce, from);
    KeyAgainstBound(version, nonce, latest + 1);
  }

  /** Byte order on node keys is the order on (version, nonce). */
  lemma {:induction false} KeyOrder(v: int, n: int, w: int, m: int)
    requires 0 <= v < TWO_63 && 0 <= w < TWO_63 && 0 <= n < 0x1_0000_0000 && 0 <= m < 0x1_0000_0000
    requires v < w || (v == w && n < m)
    ensures Less(DbKey(v, n), DbKey(w, m))
  {
    KeyBytesOrder(v, n, w, m);
    CommonPrefix([PREFIX], KeyBytes(v, n), KeyBytes(w, m));
  }

  lemma {:induction false} KeyBytesOrder(v: int, n: int, w: int, m: int)
    requires 0 <= v < TWO_63 && 0 <= w < TWO_63 && 0 <= n < 0x1_0000_0000 && 0 <= m < 0x1_0000_0000
    requires v < w || (v == w && n < m)
    ensures Less(KeyBytes(v, n), KeyBytes(w, m))
  {
    Pow256Values();
    KeyBytesOf(v, n);
    KeyBytesOf(w, m);
    if v < w {
      BigEndianMonotone(v, w, 8);
      PrefixDecides(BigEndian(v, 8), BigEndian(w, 8), BigEndian(n, 4), BigEndian(m, 4));
    } else {
      BigEndianMonotone(n, m, 4);
      CommonPrefix(BigEndian(v, 8), BigEndian(n, 4), BigEndian(m, 4));
    }
  }

  lemma {:induction false} KeyBytesOf(version: int, nonce: int)
    requires 0 <= version < TWO_63 && 0 <= nonce < 0x1_0000_0000
    ensures KeyBytes(version, nonce) == BigEndian(version, 8) + BigEndian(nonce, 4)
  {
    assert version % TWO_64 == version;
  }

  // ----- Nodes -----

  datatype Body = LeafBody(value: Bytes) | InnerBody(hash: Bytes, left: Bytes, right: Bytes)

  /** A node as stored. A child key is twelve bytes, or the 32-byte hash of a node in the older format. */
  datatype StoredNode = StoredNode(height: int, size: int, key: Bytes, body: Body)

  datatype NodeError = Decoding(e: DecodeError) | HeightOutOfRange | InvalidMode | NonceOutOfRange

  predicate IsHashKey(k: Bytes) {
    |k| == 32
  }

  function WriteChild(k: Bytes): Bytes
    requires |k| == 12 || |k| == 32
  {
    if IsHashKey(k) then PutHash(k) else PutVarint(KeyVersion(k)) + PutVarint(KeyNonce(k))
  }

  function Mode(left: Bytes, right: Bytes): int {
    (if IsHashKey(left) then 1 else 0) + (if IsHashKey(right) then 2 else 0)
  }

  /** What the source's `writeBytes` is given: a leaf exactly at height zero, sizes within their types. */
  predicate Writable(n: StoredNode) {
    && -128 <= n.height < 128 && IsInt64(n.size) && |n.key| < TWO_63 - 1
    && (n.height == 0 <==> n.body.LeafBody?)
    && (n.body.LeafBody? ==> |n.body.value| < TWO_63 - 1)
    && (n.body.InnerBody? ==>
          && |n.body.hash| == 32
          && (|n.body.left| == 12 || |n.body.left| == 32)
          && (|n.body.right| == 12 || |n.body.right| == 32))
  }

  function WriteBody(b: Body): Bytes
    requires b.InnerBody? ==> (|b.left| == 12 || |b.left| == 32) && (|b.right| == 12 || |b.right| == 32)
  {
    match b
    case LeafBody(value) => PutBytes(value)
    case InnerBody(hash, left, right) =>
      PutHash(hash) + (PutVarint(Mode(left, right)) + (WriteChild(left) + WriteChild(right)))
  }

  function WriteNode(n: StoredNode): Bytes
    requires Writable(n)
  {
    PutVarint(n.height) + (PutVarint(n.size) + (PutBytes(n.key) + WriteBody(n.body)))
  }

  // Reading advances through the buffer; each step returns what is left.

  function TakeVarint(buf: Bytes): (r: Result<(int, Bytes), NodeError>)
    ensures r.Ok? ==> IsInt64(r.value.0)
  {
    match DecodeVarint(buf)
    case Ok((x, n)) => Ok((x, buf[n..]))
    case Err(e) => Err(Decoding(e))
  }

  function TakeBytes(buf: Bytes): Result<(Bytes, Bytes), NodeError> {
    match DecodeBytes(buf)
    case Ok(s) => Ok((s.bytes, buf[s.n..]))
    case Err(e) => Err(Decoding(e))
  }

  function TakeChild(hashed: bool, buf: Bytes): Result<(Bytes, Bytes), NodeError> {
    if hashed then
      TakeBytes(buf)
    else
      var (version, buf1) :- TakeVarint(buf);
      var (nonce, buf2) :- TakeVarint(buf1);
      if !(0 <= nonce < 0x1_0000_0000) then Err(NonceOutOfRange)
      else Ok((KeyBytes(version, nonce), buf2))
  }

  function MakeChildren(height: int, size: int, key: Bytes, hash: Bytes, mode: int,
                        buf: Bytes): Result<StoredNode, NodeError> {
    var (left, buf1) :- TakeChild(mode % 2 != 0, buf);
    var (right, _) :- TakeChild(mode / 2 % 2 != 0, buf1);
    Ok(StoredNode(height, size, key, InnerBody(hash, left, right)))
  }

  function MakeInner(height: int, size: int, key: Bytes, buf: Bytes): Result<StoredNode, NodeError> {
    var (hash, buf1) :- TakeBytes(buf);
    var (mode, buf2) :- TakeVarint(buf1);
    if mode < 0 || mode > 3 then Err(InvalidMode) else MakeChildren(height, size, key, hash, mode, buf2)
  }

  function MakeLeaf(height: int, size: int, key: Bytes, buf: Bytes): Result<StoredNode, NodeError> {
    var (value, _) :- TakeBytes(buf);
    Ok(StoredNode(height, size, key, LeafBody(value)))
  }

  function MakeAfterHeight(height: int, buf: Bytes): Result<StoredNode, NodeError> {
    var (size, buf1) :- TakeVarint(buf);
    var (key, buf2) :- TakeBytes(buf1);
    if height == 0 then MakeLeaf(height, size, key, buf2) else MakeInner(height, size, key, buf2)
  }

  function MakeNode(buf: Bytes): Result<StoredNode, NodeError> {
    var (height, buf1) :- TakeVarint(buf);
    if !(-128 <= height < 128) then Err(HeightOutOfRange) else MakeAfterHeight(height, buf1)
  }

  lemma {:induction false} TakeVarintBack(x: int, tail: Bytes)
    requires IsInt64(x)
    ensures TakeVarint(PutVarint(x) + tail) == Ok((x, tail))
  {
    VarintRoundTrip(x, tail);
    assert (PutVarint(x) + tail)[|PutVarint(x)|..] == tail;
  }

  lemma {:induction false} TakeBytesBack(bz: Bytes, tail: Bytes)
    requires |bz| < TWO_63 - 1
    ensures TakeBytes(PutBytes(bz) + tail) == Ok((bz, tail))
  {
    BytesRoundTrip(bz, tail);
    assert (PutBytes(bz) + tail)[|PutBytes(bz)|..] == tail;
  }

  lemma {:induction false} TakeChildBack(k: Bytes, tail: Bytes)
    requires |k| == 12 || |k| == 32
    ensures TakeChild(IsHashKey(k), WriteChild(k) + tail) == Ok((k, tail))
  {
    if IsHashKey(k) {
      HashIsBytes(k);
      TakeBytesBack(k, tail);
    } else {
      KeyBytesWritten(k);
      var v, n := KeyVersion(k), KeyNonce(k);
      assert WriteChild(k) + tail == PutVarint(v) + (PutVarint(n) + tail);
      TakeVarintBack(v, PutVarint(n) + tail);
      TakeVarintBack(n, tail);
    }
  }

  lemma {:induction false} ModeBits(left: Bytes, right: Bytes)
    ensures (Mode(left, right) % 2 != 0) == IsHashKey(left)
    ensures (Mode(left, right) / 2 % 2 != 0) == IsHashKey(right)
  {
  }

  lemma {:induction false} BothChildrenBack(left: Bytes, right: Bytes)
    requires (|left| == 12 || |left| == 32) && (|right| == 12 || |right| == 32)
    ensures TakeChild(IsHashKey(left), WriteChild(left) + WriteChild(right)) == Ok((left, WriteChild(right)))
    ensures TakeChild(IsHashKey(right), WriteChild(right)) == Ok((right, []))
  {
    TakeChildBack(left, WriteChild(right));
    assert WriteChild(right) + [] == WriteChild(right);
    TakeChildBack(right, []);
  }

  lemma {:induction false} ChildrenBack(n: StoredNode)
    requires Writable(n) && n.body.InnerBody?
    ensures
      var b := n.body;
      MakeChildren(n.height, n.size, n.key, b.hash, Mode(b.left, b.right),
                   WriteChild(b.left) + WriteChild(b.right)) == Ok(n)
  {
    BothChildrenBack(n.body.left, n.body.right);
    ModeBits(n.body.left, n.body.right);
  }

  lemma {:induction false} InnerBack(n: StoredNode)
    requires Writable(n) && n.body.InnerBody?
    ensures MakeInner(n.height, n.size, n.key, WriteBody(n.body)) == Ok(n)
  {
    var b := n.body;
    var children := WriteChild(b.left) + WriteChild(b.right);
    HashIsBytes(b.hash);
    TakeBytesBack(b.hash, PutVarint(Mode(b.left, b.right)) + children);
    TakeVarintBack(Mode(b.left, b.right), children);
    ChildrenBack(n);
  }

  lemma {:induction false} LeafBack(n: StoredNode)
    requires Writable(n) && n.body.LeafBody?
    ensures MakeLeaf(n.height, n.size, n.key, WriteBody(n.body)) == Ok(n)
  {
    TakeBytesBack(n.body.value, []);
    assert PutBytes(n.body.value) + [] == PutBytes(n.body.value);
  }

  lemma {:induction false} AfterHeightBack(n: StoredNode)
    requires Writable(n)
    ensures MakeAfterHeight(n.height, PutVarint(n.size) + (PutBytes(n.key) + WriteBody(n.body))) == Ok(n)
  {
    TakeVarintBack(n.size, PutBytes(n.key) + WriteBody(n.body));
    TakeBytesBack(n.key, WriteBody(n.body));
    if n.body.LeafBody? {
      LeafBack(n);
    } else {
      InnerBack(n);
    }
  }

  /** `MakeNode` inverts `writeBytes`, for leaves and for inner nodes with either kind of child key. */
  lemma {:induction false} NodeRoundTrip(n: StoredNode)
    requires Writable(n)
    ensures MakeNode(WriteNode(n)) == Ok(n)
  {
    TakeVarintBack(n.height, PutVarint(n.size) + (PutBytes(n.key) + WriteBody(n.body)));
    AfterHeightBack(n);
  }

  // ----- Root records -----

  datatype RootRecord = EmptyRoot | Reference(version: int, nonce: int) | OwnNode(node: StoredNode)

  predicate WritableRecord(r: RootRecord) {
    match r
    case EmptyRoot => true
    case Reference(version, nonce) => IsInt64(version) && 0 <= nonce < 0x1_0000_0000
    case OwnNode(node) => Writable(node)
  }

  function WriteRecord(r: RootRecord): Bytes
    requires WritableRecord(r)
  {
    match r
    case EmptyRoot => []
    case Reference(version, nonce) => DbKey(version, nonce)
    case OwnNode(node) => WriteNode(node)
  }

  /** How `GetRoot` reads a record: nothing, a reference when the first byte is the key prefix, else a node. */
  function ReadRecord(bz: Bytes): Result<RootRecord, NodeError> {
    if bz == [] then Ok(EmptyRoot)
    else if bz[0] == PREFIX then
      if |bz| == 13 then Ok(Reference(KeyVersion(bz[1..]), KeyNonce(bz[1..])))
      else if |bz| == 9 then Ok(Reference(KeyVersion(bz[1..] + [0, 0, 0, 1]), 1))
      else Err(Decoding(InsufficientBytes))
    else
      var node :- MakeNode(bz);
      Ok(OwnNode(node))
  }

  lemma {:induction false} FirstByteOfNode(n: StoredNode)
    requires Writable(n)
    ensures WriteNode(n) != [] && (WriteNode(n)[0] == PREFIX <==> n.height == -58)
  {
    var u := PutUvarint(ZigZag(n.height));
    assert u[0] == PREFIX <==> ZigZag(n.height) == 0x73;
    assert WriteNode(n)[0] == u[0];
  }

  lemma {:induction false} ReferenceRoundTrip(version: int, nonce: int)
    requires IsInt64(version) && 0 <= nonce < 0x1_0000_0000
    ensures ReadRecord(DbKey(version, nonce)) == Ok(Reference(version, nonce))
  {
    assert DbKey(version, nonce)[1..] == KeyBytes(version, nonce);
    KeyBytesRead(version, nonce);
  }

  /** Root records are never confused: a record reads back exactly unless it is a node of height -58. */
  lemma {:induction false} RecordRoundTrip(r: RootRecord)
    requires WritableRecord(r)
    ensures (ReadRecord(WriteRecord(r)) == Ok(r)) <==> !(r.OwnNode? && r.node.height == -58)
  {
    if r.Reference? {
      ReferenceRoundTrip(r.version, r.nonce);
    } else if r.OwnNode? {
      NodeRoundTrip(r.node);
      FirstByteOfNode(r.node);
    }
  }
}
