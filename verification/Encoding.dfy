/** Varints, zigzag and length-prefixed byte strings, as written and read by the node encoding. */
module Encoding {
  import opened Base

  const TWO_64: int := 0x1_0000_0000_0000_0000

  predicate IsInt64(x: int) {
    -TWO_63 <= x < TWO_63
  }

  // ----- Writing -----

  function PutUvarint(u: nat): Bytes {
    if u < 0x80 then [u as byte] else [(u % 0x80 + 0x80) as byte] + PutUvarint(u / 0x80)
  }

  function ZigZag(x: int): nat {
    if x >= 0 then 2 * x else -2 * x - 1
  }

  function UnZigZag(u: nat): int {
    if u % 2 == 0 then u / 2 else -(u / 2) - 1
  }

  function PutVarint(x: int): Bytes {
    PutUvarint(ZigZag(x))
  }

  function PutBytes(bz: Bytes): Bytes {
    PutUvarint(|bz|) + bz
  }

  /** A 32-byte hash behind a constant length byte. */
  function PutHash(hash: Bytes): Bytes {
    [0x20] + hash
  }

  lemma {:induction false} HashIsBytes(hash: Bytes)
    requires |hash| == 32
    ensures PutHash(hash) == PutBytes(hash)
  {
  }

  /** Shifting in uint64, and complementing for a negative value, is the zigzag code. */
  lemma {:induction false} ShiftedIsZigZag(x: int)
    requires IsInt64(x)
    ensures var u := 2 * (x % TWO_64) % TWO_64; ZigZag(x) == if x < 0 then TWO_64 - 1 - u else u
  {
    if x < 0 {
      assert x % TWO_64 == x + TWO_64;
      assert 2 * (x + TWO_64) == 2 * x + TWO_64 + TWO_64;
    }
  }

  lemma {:induction false} PutUvarintStep(out: Bytes, u: nat)
    requires u >= 0x80
    ensures out + PutUvarint(u) == (out + [(u % 0x80 + 0x80) as byte]) + PutUvarint(u / 0x80)
  {
    Regroup(out, [(u % 0x80 + 0x80) as byte], PutUvarint(u / 0x80));
  }

  /** The first half of `fVarintEncode`: a shift in uint64, and a complement for a negative value. */
  method ShiftedWord(x: int) returns (ux: nat)
    requires IsInt64(x)
    ensures ux == ZigZag(x)
  {
    ShiftedIsZigZag(x);
    var u := 2 * (x % TWO_64) % TWO_64;
    if x < 0 {
      u := TWO_64 - 1 - u;
    }
    ux := u;
  }

  /** `fVarintEncode`: the zigzag code, seven bits a byte. */
  method WriteVarint(x: int) returns (out: Bytes)
    requires IsInt64(x)
    ensures out == PutVarint(x)
  {
    var ux := ShiftedWord(x);
    out := [];
    while ux >= 0x80
      invariant out + PutUvarint(ux) == PutVarint(x)
    {
      PutUvarintStep(out, ux);
      out := out + [(ux % 0x80 + 0x80) as byte];
      ux := ux / 0x80;
    }
    out := out + [ux as byte];
  }

  // ----- Reading -----

  datatype Varint = Read(value: int, n: nat) | TooSmall | Overflow

  datatype Slice = Slice(bytes: Bytes, n: nat)

  datatype DecodeError = BufferTooSmall | ValueOverflow | LengthOutOfRange | InsufficientBytes

  /** Reads on from byte `i`, with `x` accumulated so far; at most ten bytes and 64 bits. */
  function UvarintFrom(rest: Bytes, i: nat, x: int, scale: int): Varint {
    if rest == [] then TooSmall
    else if i == 10 then Overflow
    else if rest[0] < 0x80 then
      if i == 9 && rest[0] > 1 then Overflow else Read(x + rest[0] as int * scale, i + 1)
    else
      UvarintFrom(rest[1..], i + 1, x + (rest[0] as int - 0x80) * scale, scale * 0x80)
  }

  function Pow128(n: nat): nat {
    if n == 0 then 1 else 0x80 * Pow128(n - 1)
  }

  lemma {:induction false} Pow128Nine()
    ensures Pow128(9) == TWO_63
  {
    assert Pow128(3) == 0x20_0000;
    assert Pow128(6) == 0x400_0000_0000;
  }

  /** What is read fits 64 bits and lies within the buffer. */
  lemma {:induction false} UvarintBounded(rest: Bytes, i: nat, x: int, scale: int)
    requires i <= 10 && scale == Pow128(i) && 0 <= x < scale
    ensures var r := UvarintFrom(rest, i, x, scale); r.Read? ==> 0 <= r.value < TWO_64 && r.n - i <= |rest|
  {
    if rest != [] && i < 10 {
      var b := rest[0] as int;
      if b >= 0x80 {
        ByteFits(b - 0x80, 0x80, x, scale);
        UvarintBounded(rest[1..], i + 1, x + (b - 0x80) * scale, scale * 0x80);
      } else {
        Pow128Nine();
        ScaleBound(i);
        ByteFits(b, 0x80, x, scale);
        if i == 9 && b <= 1 {
          ByteFits(b, 2, x, scale);
        }
      }
    }
  }

  lemma {:induction false} ByteFits(b: int, bound: int, x: int, scale: int)
    requires 0 <= b < bound && 0 <= x < scale
    ensures 0 <= x + b * scale < scale * bound
  {
    assert (bound - 1 - b) * scale >= 0;
    assert scale * bound == (bound - 1 - b) * scale + b * scale + scale;
  }

  lemma {:induction false} ScaleBound(i: nat)
    requires i <= 9
    ensures i < 9 ==> 0x80 * Pow128(i) <= Pow128(9)
    decreases 9 - i
  {
    if i < 8 {
      ScaleBound(i + 1);
    }
  }

  function DecodeUvarint(bz: Bytes): (r: Result<(int, nat), DecodeError>)
    ensures r.Ok? ==> 0 <= r.value.0 < TWO_64 && r.value.1 <= |bz|
  {
    UvarintBounded(bz, 0, 0, 1);
    match UvarintFrom(bz, 0, 0, 1)
    case Read(u, n) => Ok((u, n))
    case TooSmall => Err(BufferTooSmall)
    case Overflow => Err(ValueOverflow)
  }

  function DecodeVarint(bz: Bytes): (r: Result<(int, nat), DecodeError>)
    ensures r.Ok? ==> IsInt64(r.value.0) && r.value.1 <= |bz|
  {
    var (u, n) :- DecodeUvarint(bz);
    Ok((UnZigZag(u), n))
  }

  /** A length prefix of 2^63 - 1 or more is refused, and so is one that runs past the buffer. */
  function DecodeBytes(bz: Bytes): (r: Result<Slice, DecodeError>)
    ensures r.Ok? ==> r.value.n <= |bz|
  {
    var (size, n) :- DecodeUvarint(bz);
    if size >= TWO_63 - 1 then Err(LengthOutOfRange)
    else if |bz| < n + size then Err(InsufficientBytes)
    else Ok(Slice(bz[n..n + size], n + size))
  }

  // ----- Round trips -----

  /** The least value that no longer fits when byte `i` is the next to be written. */
  function Limit(i: nat): nat
    requires i <= 9
    decreases 9 - i
  {
    if i == 9 then 2 else 0x80 * Limit(i + 1)
  }

  lemma {:induction false} LimitIsTwo64()
    ensures Limit(0) == TWO_64
  {
    assert Limit(8) == 0x100 && Limit(6) == 0x40_0000 && Limit(4) == 0x10_0000_0000;
    assert Limit(2) == 0x4_0000_0000_0000;
  }

  lemma {:induction false} Recombine(q: int, r: int, x: int, scale: int)
    ensures (x + r * scale) + q * (scale * 0x80) == x + (q * 0x80 + r) * scale
  {
    calc {
      q * (scale * 0x80);
      (q * 0x80) * scale;
    }
    assert (q * 0x80 + r) * scale == (q * 0x80) * scale + r * scale;
  }

  lemma {:induction false} UvarintReadsBack(u: nat, tail: Bytes, i: nat, x: int, scale: int)
    requires i <= 9 && u < Limit(i)
    ensures UvarintFrom(PutUvarint(u) + tail, i, x, scale) == Read(x + u * scale, i + |PutUvarint(u)|)
    decreases u
  {
    var buf := PutUvarint(u) + tail;
    if u >= 0x80 {
      var q, r := u / 0x80, u % 0x80;
      assert q < Limit(i + 1);
      assert buf[1..] == PutUvarint(q) + tail;
      assert buf[0] as int - 0x80 == r;
      UvarintReadsBack(q, tail, i + 1, x + r * scale, scale * 0x80);
      Recombine(q, r, x, scale);
    }
  }

  lemma {:induction false} UvarintRoundTrip(u: nat, tail: Bytes)
    requires u < TWO_64
    ensures DecodeUvarint(PutUvarint(u) + tail) == Ok((u, |PutUvarint(u)|))
  {
    LimitIsTwo64();
    UvarintReadsBack(u, tail, 0, 0, 1);
  }

  /** Every int64 reads back, whatever follows it in the buffer. */
  lemma {:induction false} VarintRoundTrip(x: int, tail: Bytes)
    requires IsInt64(x)
    ensures DecodeVarint(PutVarint(x) + tail) == Ok((x, |PutVarint(x)|))
  {
    LimitIsTwo64();
    UvarintReadsBack(ZigZag(x), tail, 0, 0, 1);
  }

  lemma {:induction false} BytesRoundTrip(bz: Bytes, tail: Bytes)
    requires |bz| < TWO_63 - 1
    ensures DecodeBytes(PutBytes(bz) + tail) == Ok(Slice(bz, |PutBytes(bz)|))
  {
    var buf := PutBytes(bz) + tail;
    assert buf == PutUvarint(|bz|) + (bz + tail);
    UvarintRoundTrip(|bz|, bz + tail);
  }

  // ----- Prefix freeness, for all values -----

  lemma {:induction false} UvarintPrefixFree(u: nat, v: nat, a: Bytes, b: Bytes)
    requires PutUvarint(u) + a == PutUvarint(v) + b
    ensures u == v && a == b
    decreases u
  {
    var s, t := PutUvarint(u) + a, PutUvarint(v) + b;
    assert s[0] == t[0];
    if u >= 0x80 {
      assert s[1..] == PutUvarint(u / 0x80) + a && t[1..] == PutUvarint(v / 0x80) + b;
      UvarintPrefixFree(u / 0x80, v / 0x80, a, b);
    } else {
      assert s[1..] == a && t[1..] == b;
    }
  }

  lemma {:induction false} VarintPrefixFree(x: int, y: int, a: Bytes, b: Bytes)
    requires PutVarint(x) + a == PutVarint(y) + b
    ensures x == y && a == b
  {
    UvarintPrefixFree(ZigZag(x), ZigZag(y), a, b);
  }

  lemma {:induction false} BytesPrefixFree(x: Bytes, y: Bytes, a: Bytes, b: Bytes)
    requires PutBytes(x) + a == PutBytes(y) + b
    ensures x == y && a == b
  {
    assert PutBytes(x) + a == PutUvarint(|x|) + (x + a);
    assert PutBytes(y) + b == PutUvarint(|y|) + (y + b);
    UvarintPrefixFree(|x|, |y|, x + a, y + b);
    assert x == (x + a)[..|x|] == (y + b)[..|y|] == y;
    assert a == (x + a)[|x|..] == (y + b)[|y|..] == b;
  }

  // ----- The digits of a varint -----

  /** The bytes are the digits to the base 128, least first; every byte but the last carries the top bit. */
  lemma {:induction false} UvarintDigits(u: nat, i: nat)
    requires i < |PutUvarint(u)|
    ensures Pow128(i) > 0
    ensures PutUvarint(u)[i] as int == u / Pow128(i) % 0x80 + (if i < |PutUvarint(u)| - 1 then 0x80 else 0)
    decreases u
  {
    Pow128Positive(i);
    if u >= 0x80 && i > 0 {
      UvarintDigits(u / 0x80, i - 1);
      DivideTwice(u, Pow128(i - 1));
    } else if u < 0x80 {
      assert i == 0;
    }
  }

  /** The code has the fewest digits that hold the value. */
  lemma {:induction false} UvarintLength(u: nat)
    ensures u < Pow128(|PutUvarint(u)|)
    ensures |PutUvarint(u)| > 1 ==> Pow128(|PutUvarint(u)| - 1) <= u
  {
    if u >= 0x80 {
      UvarintLength(u / 0x80);
    }
  }

  lemma {:induction false} Pow128Positive(n: nat)
    ensures Pow128(n) > 0
  {
    if n > 0 {
      Pow128Positive(n - 1);
    }
  }

  lemma {:induction false} DivideTwice(u: nat, b: int)
    requires b > 0
    ensures u / 0x80 / b == u / (0x80 * b)
  {
    var q, r := u / 0x80, u % 0x80;
    var p, s := q / b, q % b;
    assert q == b * p + s;
    assert 0x80 * (b * p) == (0x80 * b) * p;
    QuotientIs(u, 0x80 * b, p, 0x80 * s + r);
  }

  lemma {:induction false} QuotientIs(u: int, d: int, q: int, r: int)
    requires u == d * q + r && 0 <= r < d
    ensures u / d == q
  {
    var k := u / d - q;
    assert u == d * (u / d) + u % d;
    assert d * k == d * (u / d) - d * q;
    Multiple(d, k);
  }

  lemma {:induction false} Multiple(d: int, k: int)
    requires d > 0
    ensures k > 0 ==> d * k >= d
    ensures k < 0 ==> d * k <= -d
  {
    if k > 0 {
      Product(d, k - 1);
      assert d * k == d * (k - 1) + d;
    } else if k < 0 {
      Product(d, -k - 1);
      assert d * k == -(d * (-k - 1)) - d;
    }
  }

  lemma {:induction false} Product(a: nat, b: nat)
    ensures a * b >= 0
  {
  }

  /** The value of digits to the base 128, the top bits ignored. */
  function Digits(bz: Bytes): nat {
    if bz == [] then 0 else bz[0] as int % 0x80 + 0x80 * Digits(bz[1..])
  }

  /** The first `n` bytes are a varint: the last of them is the first without the top bit. */
  predicate EndsAt(bz: Bytes, n: nat) {
    && 1 <= n <= |bz| && bz[n - 1] < 0x80
    && forall j :: 0 <= j < n - 1 ==> bz[j] >= 0x80
  }

  lemma {:induction false} ReadsDigits(rest: Bytes, m: nat, i: nat, x: int, scale: int)
    requires i <= 10 && EndsAt(rest, m)
    ensures UvarintFrom(rest, i, x, scale) ==
      if i + m < 10 || (i + m == 10 && rest[m - 1] <= 1) then Read(x + Digits(rest[..m]) * scale, i + m) else Overflow
    decreases m
  {
    if i < 10 {
      if m == 1 {
        assert rest[..1] == [rest[0]];
      } else {
        assert rest[0] >= 0x80;
        var tail, b := rest[1..], rest[0] as int - 0x80;
        assert EndsAt(tail, m - 1);
        ReadsDigits(tail, m - 1, i + 1, x + b * scale, scale * 0x80);
        assert rest[..m][1..] == tail[..m - 1];
        assert Digits(rest[..m]) == b + 0x80 * Digits(tail[..m - 1]);
        Recombine(Digits(tail[..m - 1]), b, x, scale);
      }
    }
  }

  lemma {:induction false} ReadsOn(rest: Bytes, i: nat, x: int, scale: int)
    requires i <= 10 && forall j :: 0 <= j < |rest| ==> rest[j] >= 0x80
    ensures UvarintFrom(rest, i, x, scale) == if i + |rest| <= 10 then TooSmall else Overflow
    decreases |rest|
  {
    if rest != [] && i < 10 {
      ReadsOn(rest[1..], i + 1, x + (rest[0] as int - 0x80) * scale, scale * 0x80);
    }
  }

  lemma {:induction false} DigitsBound(bz: Bytes)
    ensures Digits(bz) < Pow128(|bz|)
  {
    if bz != [] {
      DigitsBound(bz[1..]);
    }
  }

  lemma {:induction false} LastDigit(bz: Bytes, last: byte)
    requires last < 0x80
    ensures Digits(bz + [last]) == Digits(bz) + last as int * Pow128(|bz|)
  {
    if bz == [] {
      assert bz + [last] == [last];
    } else {
      LastDigit(bz[1..], last);
      assert (bz + [last])[1..] == bz[1..] + [last];
      Rescale(last as int, Pow128(|bz| - 1));
    }
  }

  lemma {:induction false} Rescale(a: int, b: int)
    ensures 0x80 * (a * b) == a * (0x80 * b)
  {
  }

  /** A varint fits 64 bits exactly when it has fewer than ten bytes, or ten and the last of them is 0 or 1. */
  lemma {:induction false} FitsExactly(bz: Bytes, n: nat)
    requires EndsAt(bz, n) && n <= 10
    ensures Digits(bz[..n]) < TWO_64 <==> n < 10 || bz[n - 1] <= 1
  {
    var front, last := bz[..n - 1], bz[n - 1];
    assert bz[..n] == front + [last];
    DigitsBound(front);
    LastDigit(front, last);
    Pow128Nine();
    if n < 10 {
      ScaleBound(n - 1);
      ByteFits(last as int, 0x80, Digits(front), Pow128(n - 1));
    }
  }

  /**
   * Exactly what the decoder accepts: the digits up to the first byte without the top bit, if there are at most ten of
   * them and their value fits 64 bits. A buffer that ends too early is refused as too small.
   */
  lemma {:induction false} UvarintExactly(bz: Bytes, n: nat)
    ensures EndsAt(bz, n) && n <= 10 && Digits(bz[..n]) < TWO_64 ==> DecodeUvarint(bz) == Ok((Digits(bz[..n]), n))
    ensures EndsAt(bz, n) && (n > 10 || Digits(bz[..n]) >= TWO_64) ==> DecodeUvarint(bz) == Err(ValueOverflow)
    ensures (forall j :: 0 <= j < |bz| ==> bz[j] >= 0x80) ==>
      DecodeUvarint(bz) == Err(if |bz| <= 10 then BufferTooSmall else ValueOverflow)
  {
    if EndsAt(bz, n) {
      ReadsDigits(bz, n, 0, 0, 1);
      if n <= 10 {
        FitsExactly(bz, n);
      }
    }
    if forall j :: 0 <= j < |bz| ==> bz[j] >= 0x80 {
      ReadsOn(bz, 0, 0, 1);
    }
  }

  /** A length prefix decides: too long for an int is refused, past the end of the buffer is refused. */
  lemma {:induction false} BytesExactly(size: nat, rest: Bytes)
    requires size < TWO_64
    ensures DecodeBytes(PutUvarint(size) + rest) ==
      if size >= TWO_63 - 1 then Err(LengthOutOfRange)
      else if |rest| < size then Err(InsufficientBytes)
      else Ok(Slice(rest[..size], |PutUvarint(size)| + size))
  {
    UvarintRoundTrip(size, rest);
    var n := |PutUvarint(size)|;
    if size < TWO_63 - 1 && size <= |rest| {
      assert (PutUvarint(size) + rest)[n..n + size] == rest[..size];
    }
  }
}
