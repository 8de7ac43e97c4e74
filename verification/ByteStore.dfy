/**
 * The store as bytes. Every record has a byte form that decodes to it again, distinct node keys have distinct byte
 * keys, and a batch applied to the bytes leaves the byte form of the same batch applied to the records.
 */
module ByteStore {
  import opened Base
  import opened Trees
  import opened Encoding
  import opened Merkle
  import opened Store
  import opened Saving
  import C = Codec

  type ByteDb = map<Bytes, Bytes>

  /** A node key within the widths it is stored with. */
  predicate KeyFits(k: NodeKey) {
    IsInt64(k.version) && 0 <= k.nonce < 0x1_0000_0000
  }

  function KeyAsBytes(k: NodeKey): Bytes
    requires KeyFits(k)
  {
    C.DbKey(k.version, k.nonce)
  }

  lemma {:induction false} KeysDiffer(k: NodeKey, l: NodeKey)
    requires KeyFits(k) && KeyFits(l) && KeyAsBytes(k) == KeyAsBytes(l)
    ensures k == l
  {
    C.KeyBytesRead(k.version, k.nonce);
    C.KeyBytesRead(l.version, l.nonce);
    assert KeyAsBytes(k)[1..] == C.KeyBytes(k.version, k.nonce);
    assert KeyAsBytes(l)[1..] == C.KeyBytes(l.version, l.nonce);
  }

  // ----- Nodes -----

  /** A linked node within the widths its fields are stored with. */
  predicate NodeFits(x: Node) {
    && Linked(x) && 0 <= Height(x) < 128 && IsInt64(Size(x)) && |x.key| < TWO_63 - 1
    && (x.Leaf? ==> |x.value| < TWO_63 - 1)
    && (x.Inner? ==> x.height > 0 && KeyFits(KeyOf(x.left)) && KeyFits(KeyOf(x.right)))
  }

  /** How a child is named: by its node key, or by its hash if it was moved to nonce 0. */
  function ChildKey(sha: Digest, x: Node): Bytes
    requires x.nk.Some? && KeyFits(KeyOf(x))
  {
    if KeyOf(x).nonce != 0 then C.KeyBytes(KeyOf(x).version, KeyOf(x).nonce) else Hash(sha, x, 0)
  }

  function StoredForm(sha: Digest, x: Node): C.StoredNode
    requires NodeFits(x)
  {
    C.StoredNode(Height(x), Size(x), x.key,
      if x.Leaf? then C.LeafBody(x.value)
      else C.InnerBody(Hash(sha, x, 0), ChildKey(sha, x.left), ChildKey(sha, x.right)))
  }

  function LinkFrom(k: Bytes): Link {
    if |k| == 12 then ByKey(NodeKey(C.KeyVersion(k), C.KeyNonce(k))) else ByHash
  }

  function NodeFrom(n: C.StoredNode): NodeRecord {
    match n.body
    case LeafBody(value) => LeafRecord(n.key, value)
    case InnerBody(_, left, right) => InnerRecord(n.key, n.height, n.size, LinkFrom(left), LinkFrom(right))
  }

  lemma {:induction false} LinkReads(sha: Digest, x: Node)
    requires Digest32(sha) && x.nk.Some? && KeyFits(KeyOf(x))
    ensures LinkFrom(ChildKey(sha, x)) == LinkOf(x)
  {
    C.KeyBytesRead(KeyOf(x).version, KeyOf(x).nonce);
  }

  lemma {:induction false} FormReads(sha: Digest, x: Node)
    requires Digest32(sha) && NodeFits(x)
    ensures C.Writable(StoredForm(sha, x)) && NodeFrom(StoredForm(sha, x)) == RecordOf(x)
  {
    if x.Inner? {
      LinkReads(sha, x.left);
      LinkReads(sha, x.right);
    }
  }

  // ----- Records -----

  /** The record that a value of the store stands for. */
  function Decoded(bz: Bytes): Option<Record> {
    match C.ReadRecord(bz)
    case Err(_) => None
    case Ok(EmptyRoot) => Some(Record.EmptyRoot)
    case Ok(Reference(version, nonce)) => Some(Record.Reference(NodeKey(version, nonce)))
    case Ok(OwnNode(node)) => Some(Stored(NodeFrom(node)))
  }

  /** The bytes of a node decode to its record, and carry its hash. */
  lemma {:induction false} NodeBytesDecode(sha: Digest, x: Node)
    requires Digest32(sha) && NodeFits(x)
    ensures C.Writable(StoredForm(sha, x)) && Decoded(C.WriteNode(StoredForm(sha, x))) == Some(Stored(RecordOf(x)))
    ensures x.Inner? ==>
      var r := C.MakeNode(C.WriteNode(StoredForm(sha, x)));
      r.Ok? && r.value.body.InnerBody? && r.value.body.hash == Hash(sha, x, 0)
  {
    FormReads(sha, x);
    var n := StoredForm(sha, x);
    C.NodeRoundTrip(n);
    C.RecordRoundTrip(C.OwnNode(n));
  }

  /** A reference is the byte key of its target, and the empty root is the empty string. */
  lemma {:induction false} RootBytesDecode(k: NodeKey)
    requires KeyFits(k)
    ensures Decoded(KeyAsBytes(k)) == Some(Record.Reference(k)) && Decoded([]) == Some(Record.EmptyRoot)
  {
    C.ReferenceRoundTrip(k.version, k.nonce);
  }

  // ----- Stores -----

  /** The bytes stand for exactly the records. */
  ghost predicate Images(bytes: ByteDb, db: Db) {
    && (forall k :: k in db ==> KeyFits(k) && KeyAsBytes(k) in bytes && Decoded(bytes[KeyAsBytes(k)]) == Some(db[k]))
    && (forall b :: b in bytes ==> exists k :: k in db && KeyFits(k) && KeyAsBytes(k) == b)
  }

  /** A write in bytes: a value for a byte key, or a deletion. */
  datatype ByteOp = Assign(key: Bytes, value: Bytes) | Drop(key: Bytes)

  function WriteBytes(bytes: ByteDb, op: ByteOp): ByteDb {
    match op
    case Assign(key, value) => bytes[key := value]
    case Drop(key) => bytes - {key}
  }

  function ApplyBytes(bytes: ByteDb, ops: seq<ByteOp>): ByteDb {
    if ops == [] then bytes else WriteBytes(ApplyBytes(bytes, ops[..|ops| - 1]), ops[|ops| - 1])
  }

  /** The byte form of a write: same key, and a value that decodes to the record. */
  ghost predicate IsByteForm(b: ByteOp, op: BatchOp) {
    match op
    case Put(k, r) => b.Assign? && KeyFits(k) && b.key == KeyAsBytes(k) && Decoded(b.value) == Some(r)
    case Del(k) => b.Drop? && KeyFits(k) && b.key == KeyAsBytes(k)
  }

  lemma {:induction false} ImageOfRecord(bytes: ByteDb, db: Db, b: ByteOp, op: BatchOp, k: NodeKey)
    requires Images(bytes, db) && IsByteForm(b, op) && k in Write(db, op)
    ensures KeyFits(k) && KeyAsBytes(k) in WriteBytes(bytes, b)
    ensures Decoded(WriteBytes(bytes, b)[KeyAsBytes(k)]) == Some(Write(db, op)[k])
  {
    if k != op.key {
      assert k in db;
      if KeyAsBytes(k) == KeyAsBytes(op.key) {
        KeysDiffer(k, op.key);
      }
    }
  }

  lemma {:induction false} ImageWrites(bytes: ByteDb, db: Db, b: ByteOp, op: BatchOp)
    requires Images(bytes, db) && IsByteForm(b, op)
    ensures Images(WriteBytes(bytes, b), Write(db, op))
  {
    var bytes', db' := WriteBytes(bytes, b), Write(db, op);
    forall k | k in db'
      ensures KeyFits(k) && KeyAsBytes(k) in bytes' && Decoded(bytes'[KeyAsBytes(k)]) == Some(db'[k])
    {
      ImageOfRecord(bytes, db, b, op, k);
    }
    forall x | x in bytes' ensures exists k :: k in db' && KeyFits(k) && KeyAsBytes(k) == x {
      if x == b.key {
        assert op.key in db' && KeyAsBytes(op.key) == x;
      } else {
        var k :| k in db && KeyFits(k) && KeyAsBytes(k) == x;
        assert k in db';
      }
    }
  }

  /** A batch of byte writes keeps the bytes in step with the records. */
  lemma {:induction false} ImageApplies(bytes: ByteDb, db: Db, bs: seq<ByteOp>, ops: seq<BatchOp>)
    requires Images(bytes, db) && |bs| == |ops| && forall i :: 0 <= i < |ops| ==> IsByteForm(bs[i], ops[i])
    ensures Images(ApplyBytes(bytes, bs), Apply(db, ops))
  {
    if ops != [] {
      var n := |ops| - 1;
      ImageApplies(bytes, db, bs[..n], ops[..n]);
      ImageWrites(ApplyBytes(bytes, bs[..n]), Apply(db, ops[..n]), bs[n], ops[n]);
    }
  }

  /** What is found under a node key in the bytes is what the records hold for it. */
  lemma {:induction false} ImageReads(bytes: ByteDb, db: Db, k: NodeKey)
    requires Images(bytes, db) && KeyFits(k)
    ensures k in db <==> KeyAsBytes(k) in bytes
    ensures k in db ==> Decoded(bytes[KeyAsBytes(k)]) == Some(db[k])
  {
    if KeyAsBytes(k) in bytes {
      var l :| l in db && KeyFits(l) && KeyAsBytes(l) == KeyAsBytes(k);
      KeysDiffer(k, l);
    }
  }

  // ----- Saving -----

  predicate AllFit(nodes: seq<Node>) {
    forall i :: 0 <= i < |nodes| ==> NodeFits(nodes[i]) && KeyFits(KeyOf(nodes[i]))
  }

  function SaveNode(sha: Digest, x: Node): ByteOp
    requires Digest32(sha) && NodeFits(x) && KeyFits(KeyOf(x))
  {
    FormReads(sha, x);
    Assign(KeyAsBytes(KeyOf(x)), C.WriteNode(StoredForm(sha, x)))
  }

  /** `SaveNode` for each of the new nodes: the encoded node under its byte key. */
  function SaveNodes(sha: Digest, nodes: seq<Node>): seq<ByteOp>
    requires Digest32(sha) && AllFit(nodes)
  {
    if nodes == [] then []
    else SaveNodes(sha, nodes[..|nodes| - 1]) + [SaveNode(sha, nodes[|nodes| - 1])]
  }

  /** Writing encoded nodes leaves the byte form of the store with the nodes' records. */
  lemma {:induction false} SavedInBytes(sha: Digest, bytes: ByteDb, db: Db, nodes: seq<Node>)
    requires Digest32(sha) && AllFit(nodes) && AllLinked(nodes) && Images(bytes, db)
    ensures Images(ApplyBytes(bytes, SaveNodes(sha, nodes)), Apply(db, PutAll(nodes)))
  {
    if nodes != [] {
      var front, last := nodes[..|nodes| - 1], nodes[|nodes| - 1];
      SavedInBytes(sha, bytes, db, front);
      NodeBytesDecode(sha, last);
      var b, op := SaveNode(sha, last), Put(KeyOf(last), Stored(RecordOf(last)));
      ApplyOne(db, PutAll(front), op);
      ApplyBytesOne(bytes, SaveNodes(sha, front), b);
      ImageWrites(ApplyBytes(bytes, SaveNodes(sha, front)), Apply(db, PutAll(front)), b, op);
    }
  }

  lemma {:induction false} ApplyBytesOne(bytes: ByteDb, bs: seq<ByteOp>, b: ByteOp)
    ensures ApplyBytes(bytes, bs + [b]) == WriteBytes(ApplyBytes(bytes, bs), b)
  {
    assert (bs + [b])[..|bs|] == bs;
  }
}
