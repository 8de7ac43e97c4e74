/** Point lookups: `has`, `get` with its rank, and `getByIndex`. */
module Lookup {
  import opened Base
  import opened Trees

  /** `get`: the rank of the key among the leaves and its value, if any. */
  datatype Found = Found(index: int, value: Option<Bytes>)

  function Has(t: Node, key: Bytes): bool {
    if t.key == key then true
    else if t.Leaf? then false
    else if Less(key, t.key) then Has(t.left, key)
    else Has(t.right, key)
  }

  function Get(t: Node, key: Bytes): Found {
    if t.Leaf? then
      if Less(t.key, key) then Found(1, None)
      else if Less(key, t.key) then Found(0, None)
      else Found(0, Some(t.value))
    else if Less(key, t.key) then
      Get(t.left, key)
    else
      var r := Get(t.right, key);
      Found(r.index + t.size - Size(t.right), r.value)
  }

  function GetByIndex(t: Node, index: int): Option<(Bytes, Bytes)> {
    if t.Leaf? then
      if index == 0 then Some((t.key, t.value)) else None
    else if index < Size(t.left) then
      GetByIndex(t.left, index)
    else
      GetByIndex(t.right, index - Size(t.left))
  }

  function Find(m: map<Bytes, Bytes>, key: Bytes): Option<Bytes> {
    if key in m then Some(m[key]) else None
  }

  /** `index` splits the sorted leaves into those below the key and the rest. */
  predicate IsRank(s: seq<Node>, key: Bytes, index: int) {
    && 0 <= index <= |s|
    && (forall i :: 0 <= i < index ==> Less(s[i].key, key))
    && (forall i :: index <= i < |s| ==> !Less(s[i].key, key))
  }

  /** `get` returns the number of smaller keys, and the value the map holds. */
  lemma {:induction false} GetCorrect(t: Node, key: Bytes)
    requires Avl(t)
    ensures IsRank(LeafSeq(t), key, Get(t, key).index)
    ensures Get(t, key).value == Find(Model(t), key)
  {
    Trichotomy(t.key, key);
    if t.Inner? {
      LeafSeqSorted(t);
      LeafSeqSorted(t.left);
      LeafSeqSorted(t.right);
      LeafMapIsModel(t.left);
      LeafMapIsModel(t.right);
      Separated(t);
      LeafSeqMatchesMap(t.left);
      LeafSeqMatchesMap(t.right);
      if Less(key, t.key) {
        GetCorrect(t.left, key);
        forall k | k in LeafMap(t.right) ensures !Less(k, key) && k != key {
          if Less(k, key) {
            Transitive(k, key, t.key);
          }
          Trichotomy(t.key, k);
        }
      } else {
        GetCorrect(t.right, key);
        forall k | k in LeafMap(t.left) ensures Less(k, key) && k != key {
          if key != t.key {
            Transitive(k, t.key, key);
          }
          Trichotomy(k, key);
        }
      }
    }
  }

  /** `has` agrees with `get` although it also stops at an equal inner key. */
  lemma {:induction false} HasCorrect(t: Node, key: Bytes)
    requires Avl(t)
    ensures Has(t, key) == (key in Model(t))
  {
    if t.Inner? {
      Separated(t);
      Trichotomy(t.key, key);
      LeafMapIsModel(t.left);
      LeafMapIsModel(t.right);
      if t.key == key {
        KeysWithinBounds(t.right);
      } else if Less(key, t.key) {
        HasCorrect(t.left, key);
      } else {
        HasCorrect(t.right, key);
      }
    }
  }

  /** `getByIndex` is the sorted leaf sequence, and nothing outside it, negative indices included. */
  lemma {:induction false} GetByIndexCorrect(t: Node, index: int)
    requires Avl(t)
    ensures |LeafSeq(t)| == Size(t)
    ensures GetByIndex(t, index) ==
      if 0 <= index < |LeafSeq(t)| then Some((LeafSeq(t)[index].key, LeafSeqValue(t, index))) else None
  {
    LeafSeqSorted(t);
    if t.Inner? {
      LeafSeqSorted(t.left);
      LeafSeqSorted(t.right);
      MeasuredBounds(t.left);
      MeasuredBounds(t.right);
      if index < Size(t.left) {
        GetByIndexCorrect(t.left, index);
      } else {
        GetByIndexCorrect(t.right, index - Size(t.left));
      }
    }
  }

  function LeafSeqValue(t: Node, index: int): Bytes
    requires Ordered(t) && 0 <= index < |LeafSeq(t)|
  {
    LeafSeqSorted(t);
    LeafSeq(t)[index].value
  }

  /** `getByIndex` and `get` are inverse to each other. */
  lemma {:induction false} IndexRoundTrip(t: Node, index: int, key: Bytes)
    requires Avl(t)
    ensures GetByIndex(t, index).Some? ==>
      var (k, v) := GetByIndex(t, index).value; Get(t, k) == Found(index, Some(v))
    ensures Get(t, key).value.Some? ==>
      GetByIndex(t, Get(t, key).index) == Some((key, Get(t, key).value.value))
  {
    LeafSeqSorted(t);
    LeafSeqMatchesMap(t);
    LeafMapIsModel(t);
    GetByIndexCorrect(t, index);
    if 0 <= index < |LeafSeq(t)| {
      var k := LeafSeq(t)[index].key;
      GetCorrect(t, k);
      Trichotomy(k, k);
      RankUnique(LeafSeq(t), k, index, Get(t, k).index);
    }
    if key in Model(t) {
      var i :| 0 <= i < |LeafSeq(t)| && LeafSeq(t)[i] == LeafMap(t)[key];
      GetCorrect(t, key);
      Trichotomy(key, key);
      RankUnique(LeafSeq(t), key, i, Get(t, key).index);
      GetByIndexCorrect(t, i);
    } else {
      GetCorrect(t, key);
    }
  }

  /** In a strictly sorted sequence the rank of a member is its position. */
  lemma {:induction false} RankUnique(s: seq<Node>, key: Bytes, i: int, rank: int)
    requires SortedLeaves(s) && 0 <= i < |s| && s[i].key == key && IsRank(s, key, rank)
    ensures rank == i
  {
    Trichotomy(key, key);
    assert rank < |s| ==> s[rank].Leaf?;
  }
}
