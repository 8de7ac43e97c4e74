/** Values shared by every module: options, results, byte strings and their lexicographic order. */
module Base {

  datatype Option<+T> = None | Some(value: T)

  datatype Result<+T, +E> = Ok(value: T) | Err(error: E) {
    predicate IsFailure() {
      Err?
    }

    function PropagateFailure<U>(): Result<U, E>
      requires Err?
    {
      Err(error)
    }

    function Extract(): T
      requires Ok?
    {
      value
    }
  }

  const TWO_63: int := 0x8000_0000_0000_0000

  lemma {:induction false} Regroup<T>(a: seq<T>, b: seq<T>, c: seq<T>)
    ensures a + (b + c) == (a + b) + c
  {
  }

  lemma {:induction false} Unsnoc<T>(s: seq<T>) returns (front: seq<T>, last: T)
    requires s != []
    ensures s == front + [last] && |front| == |s| - 1
  {
    front, last := s[..|s| - 1], s[|s| - 1];
  }

  newtype byte = b: int | 0 <= b < 256

  type Bytes = seq<byte>

  /** `bytes.Compare(a, b) < 0`: a proper prefix sorts before its extensions. */
  predicate Less(a: Bytes, b: Bytes) {
    LessFrom(a, b, 0)
  }

  predicate LessFrom(a: Bytes, b: Bytes, i: nat)
    requires i <= |a| && i <= |b|
    decreases |a| - i
  {
    i < |b| && (i == |a| || a[i] < b[i] || (a[i] == b[i] && LessFrom(a, b, i + 1)))
  }

  predicate Leq(a: Bytes, b: Bytes) {
    a == b || Less(a, b)
  }

  lemma {:induction false} LessFromTrichotomy(a: Bytes, b: Bytes, i: nat)
    requires i <= |a| && i <= |b| && a[..i] == b[..i]
    ensures LessFrom(a, b, i) || LessFrom(b, a, i) || a == b
    ensures !(LessFrom(a, b, i) && LessFrom(b, a, i))
    ensures a == b ==> !LessFrom(a, b, i)
    decreases |a| - i
  {
    if i < |a| && i < |b| && a[i] == b[i] {
      assert a[..i + 1] == a[..i] + [a[i]] == b[..i + 1];
      LessFromTrichotomy(a, b, i + 1);
    } else if i == |a| == |b| {
      assert a == a[..i] == b[..i] == b;
    }
  }

  /** Exactly one of `a < b`, `b < a`, `a == b` holds. */
  lemma {:induction false} Trichotomy(a: Bytes, b: Bytes)
    ensures Less(a, b) || Less(b, a) || a == b
    ensures !(Less(a, b) && Less(b, a))
    ensures a == b ==> !Less(a, b)
  {
    LessFromTrichotomy(a, b, 0);
  }

  lemma {:induction false} LessFromTransitive(a: Bytes, b: Bytes, c: Bytes, i: nat)
    requires i <= |a| && i <= |b| && i <= |c|
    requires LessFrom(a, b, i) && LessFrom(b, c, i)
    ensures LessFrom(a, c, i)
    decreases |a| - i
  {
    if i < |a| && i < |b| && i < |c| && a[i] == b[i] == c[i] {
      LessFromTransitive(a, b, c, i + 1);
    }
  }

  lemma {:induction false} Transitive(a: Bytes, b: Bytes, c: Bytes)
    requires Less(a, b) && Less(b, c)
    ensures Less(a, c)
  {
    LessFromTransitive(a, b, c, 0);
  }

  /** `Less` is a strict total order. */
  lemma {:induction false} StrictTotalOrder()
    ensures forall a, b {:trigger Less(a, b)} :: !(Less(a, b) && Less(b, a)) && (Less(a, b) ==> a != b)
    ensures forall a, b {:trigger Less(a, b), Less(b, a)} :: Less(a, b) || Less(b, a) || a == b
    ensures forall a, b, c {:trigger Less(a, b), Less(b, c)} :: Less(a, b) && Less(b, c) ==> Less(a, c)
  {
    forall a, b ensures (Less(a, b) || Less(b, a) || a == b) && !(Less(a, b) && Less(b, a)) && (Less(a, b) ==> a != b) {
      Trichotomy(a, b);
    }
    forall a, b, c | Less(a, b) && Less(b, c) ensures Less(a, c) {
      Transitive(a, b, c);
    }
  }
}
