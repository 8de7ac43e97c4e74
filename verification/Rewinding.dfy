/**
 * DeleteVersionsFrom and the version search: cutting the newest versions off a store, and finding the first
 * and the latest version of a store that has just been opened.
 */
module Rewinding {
  import opened Base
  import opened Trees
  import opened Store
  import opened Layout
  import opened Saving
  import Codec

  // ----- Cutting off the newest versions -----

  /** The keys a range scan over the versions from..latest visits; a negative bound sorts behind every version. */
  function Scanned(db: Db, from: int, latest: int): set<NodeKey> {
    set k | k in db && 0 <= from <= k.version <= latest
  }

  /** A node key in the widths it is stored with. */
  predicate Fits(k: NodeKey) {
    0 <= k.version < TWO_63 && 0 <= k.nonce < 0x1_0000_0000
  }

  /** On a store whose keys fit their widths, the scan is the byte range between the two version bounds. */
  lemma {:induction false} ScanIsByteRange(db: Db, from: int, latest: int, k: NodeKey)
    requires k in db && Fits(k) && -TWO_63 <= from < TWO_63 && 0 <= latest < TWO_63
    ensures
      var bz := Codec.DbKey(k.version, k.nonce);
      k in Scanned(db, from, latest) <==>
        !Less(bz, Codec.DbVersionBound(from)) && Less(bz, Codec.DbVersionBound(latest + 1))
  {
    Codec.RangeScanIsVersionRange(k.version, k.nonce, from, latest);
  }

  function Cut(h: History, t: int): History {
    History(h.lo, t, map v | v in h.roots && v <= t :: h.roots[v])
  }

  lemma {:induction false} CutIsGood(h: History, t: int)
    requires GoodHistory(h) && h.lo <= t <= h.hi
    ensures GoodHistory(Cut(h, t))
  {
    var c := Cut(h, t);
    assert Complete(c);
    forall v {:trigger GoodVersion(c, v)} | InSpan(c, v) ensures GoodVersion(c, v) {
      assert GoodVersion(h, v);
    }
  }

  lemma {:induction false} CutNodes(h: History, t: int, x: Node)
    requires GoodHistory(h) && h.lo <= t <= h.hi
    ensures Complete(Cut(h, t))
    ensures x in Span(Cut(h, t), h.lo) <==> x in Span(h, h.lo) && x.nk.Some? && KeyOf(x).version <= t
  {
    CutIsGood(h, t);
    var c := Cut(h, t);
    if x in Span(c, h.lo) {
      var w := SpanNode(c, h.lo, x);
      SpanContains(h, h.lo, w, x);
    }
    if x in Span(h, h.lo) && x.nk.Some? && KeyOf(x).version <= t {
      var w := SpanNode(h, h.lo, x);
      if t < w {
        OldNodesPersist(h, t, w, x);
      }
      SpanContains(c, h.lo, if t < w then t else w, x);
    }
  }

  lemma {:induction false} CutKeys(db: Db, h: History, t: int, k: NodeKey)
    requires Holds(db, h, h.lo) && h.lo <= t <= h.hi
    ensures Complete(Cut(h, t))
    ensures k in RootKeys(Cut(h, t), h.lo) + NodeKeys(Cut(h, t), h.lo) <==> k in db && k.version <= t
  {
    CutIsGood(h, t);
    var c := Cut(h, t);
    if k in NodeKeys(c, h.lo) {
      var x := PlaceOf(Span(c, h.lo), h.lo, k);
      CutNodes(h, t, x);
      InPlaces(Span(h, h.lo), h.lo, x);
    }
    if k in RootKeys(c, h.lo) {
      assert h.lo <= k.version <= h.hi && k == RootKey(k.version);
      assert k in RootKeys(h, h.lo);
    }
    if k in db && k.version <= t {
      if k in RootKeys(h, h.lo) {
        assert h.lo <= k.version <= t && k == RootKey(k.version);
      } else {
        var x := PlaceOf(Span(h, h.lo), h.lo, k);
        CutNodes(h, t, x);
        InPlaces(Span(c, h.lo), h.lo, x);
      }
    }
  }

  /** Deleting the nodes of all versions above `t` leaves exactly the versions up to `t`, unchanged. */
  lemma {:induction false} RewindLeavesEarlier(db: Db, h: History, t: int)
    requires Holds(db, h, h.lo) && h.lo <= t <= h.hi && 0 <= h.lo
    ensures Holds(db - Scanned(db, t + 1, h.hi), Cut(h, t), h.lo)
    ensures Readable(h, h.lo) ==> Readable(Cut(h, t), h.lo)
  {
    var c, db', lo := Cut(h, t), db - Scanned(db, t + 1, h.hi), h.lo;
    CutIsGood(h, t);
    forall k ensures k in db' <==> k in RootKeys(c, lo) + NodeKeys(c, lo) {
      CutKeys(db, h, t, k);
      if k in db {
        StoredVersions(db, h, k);
      }
    }
    forall x {:trigger HoldsNode(db', x, lo)} | x in Span(c, lo) ensures HoldsNode(db', x, lo) {
      CutNodes(h, t, x);
      assert HoldsNode(db, x, lo);
    }
    forall v {:trigger HoldsRoot(db', c.roots[v], v, lo)} | lo <= v <= c.hi ensures HoldsRoot(db', c.roots[v], v, lo) {
      assert HoldsRoot(db, h.roots[v], v, lo);
    }
  }

  // ----- The first and the latest version -----

  /** `m` is the greatest positive version of a key in the store, or 0 when there is none. */
  ghost predicate IsLatest(db: Db, m: int) {
    && (forall k :: k in db ==> k.version <= m || k.version < 1)
    && (m == 0 || (m >= 1 && exists k :: k in db && k.version == m))
  }

  lemma {:induction false} LatestIsUnique(db: Db, a: int, b: int)
    requires IsLatest(db, a) && IsLatest(db, b)
    ensures a == b
  {
  }

  lemma {:induction false} LatestExists(db: Db)
    ensures exists m :: IsLatest(db, m)
    decreases |db.Keys|
  {
    if db == map[] {
      assert IsLatest(db, 0);
    } else {
      var k :| k in db;
      var rest := db - {k};
      assert rest.Keys < db.Keys;
      LatestExists(rest);
      var m :| IsLatest(rest, m);
      assert IsLatest(db, if k.version > m then k.version else m);
    }
  }

  ghost function LatestIn(db: Db): (m: int)
    ensures IsLatest(db, m)
  {
    LatestExists(db);
    var m :| IsLatest(db, m);
    m
  }

  /** `m` splits first..latest: no root record right below it, and one at it unless it is `latest` itself. */
  ghost predicate IsFirst(db: Db, first: int, latest: int, m: int) {
    && first <= m <= latest
    && (m < latest ==> RootKey(m) in db)
    && (first < m ==> RootKey(m - 1) !in db)
  }

  /** The search of `getFirstVersion`: halving the interval first..latest. */
  function SearchFirst(db: Db, first: int, latest: int): (m: int)
    requires 0 <= first <= latest
    ensures IsFirst(db, first, latest, m)
    decreases latest - first
  {
    if first == latest then latest
    else
      var version := (latest + first) / 2;
      if RootKey(version) in db then SearchFirst(db, first, version) else SearchFirst(db, version + 1, latest)
  }

  /** `getLatestVersion` on a store whose latest version is not known yet: the last key of the range scan. */
  method FindLatest(db: Db) returns (latest: int)
    ensures IsLatest(db, latest)
  {
    latest := 0;
    var keys := db.Keys;
    while keys != {}
      invariant keys <= db.Keys
      invariant forall k :: k in db && k !in keys ==> k.version <= latest || k.version < 1
      invariant latest == 0 || (latest >= 1 && exists k :: k in db && k.version == latest)
      decreases |keys|
    {
      var k :| k in keys;
      if k.version >= 1 && k.version > latest {
        latest := k.version;
      }
      keys := keys - {k};
    }
  }

  /** The loop of `getFirstVersion`, from 0 to the latest version. */
  method FindFirst(db: Db, latestVersion: int) returns (found: int)
    requires latestVersion >= 0
    ensures found == SearchFirst(db, 0, latestVersion)
  {
    var first, latest := 0, latestVersion;
    while first < latest
      invariant 0 <= first <= latest <= latestVersion
      invariant SearchFirst(db, first, latest) == SearchFirst(db, 0, latestVersion)
      decreases latest - first
    {
      var version := (latest + first) / 2;
      if RootKey(version) in db {
        latest := version;
      } else {
        first := version + 1;
      }
    }
    return latest;
  }

  /** Whatever the search path, on a store that holds a history it ends at the first retained version. */
  lemma {:induction false} FirstIsOldest(db: Db, h: History, m: int)
    requires Holds(db, h, h.lo) && 0 <= h.lo <= h.hi && IsFirst(db, 0, h.hi, m)
    ensures m == h.lo
  {
    RootKeyPresent(db, h, h.lo, m);
    RootKeyPresent(db, h, h.lo, m - 1);
  }

  /** The greatest version of a key is the latest retained version. */
  lemma {:induction false} LatestIsNewest(db: Db, h: History, m: int)
    requires Holds(db, h, h.lo) && 1 <= h.lo && IsLatest(db, m)
    ensures m == if h.lo <= h.hi then h.hi else 0
  {
    if h.lo <= h.hi {
      RootKeyPresent(db, h, h.lo, h.hi);
      assert RootKey(h.hi).version == h.hi;
    }
    if m >= 1 {
      var k :| k in db && k.version == m;
      StoredVersions(db, h, k);
      if h.lo > h.hi {
        EmptyStore(db, h);
      }
    }
  }

  lemma {:induction false} EmptyStore(db: Db, h: History)
    requires Holds(db, h, h.lo) && h.lo > h.hi
    ensures db == map[]
  {
    assert Span(h, h.lo) == {};
    assert NodeKeys(h, h.lo) == {};
    assert RootKeys(h, h.lo) == {};
  }
}
