/**
 * Names, scores and their order: what avl_cmp compares.
 */
module Names {
  type Byte = x: int | 0 <= x < 256
  type Bytes = seq<Byte>

  /** The bits of positive infinity, the largest double. */
  const INFINITY_BITS := 0x7FF0_0000_0000_0000

  /**
   * A score is a double that is not NaN.  Read as integers, the IEEE 754 encodings of the doubles
   * of one sign are in the order of their magnitudes, so a score is represented by its position in
   * the order of the doubles (with -0 and 0 in one place).
   */
  type Score = x: int | -INFINITY_BITS <= x <= INFINITY_BITS

  datatype Pair = P(score: Score, name: Bytes)

  /** memcmp over the common length of the two names. */
  function MemCmp(a: Bytes, b: Bytes): int {
    if a == [] || b == [] then 0
    else if a[0] < b[0] then -1
    else if a[0] > b[0] then 1
    else MemCmp(a[1..], b[1..])
  }

  /** avl_cmp: scores first, then names, then lengths. */
  function Cmp(x: Pair, y: Pair): int {
    if x.score < y.score then -1
    else if x.score > y.score then 1
    else
      var rv := MemCmp(x.name, y.name);
      if rv < 0 then -1
      else if rv > 0 then 1
      else if |x.name| < |y.name| then -1
      else if |x.name| > |y.name| then 1
      else 0
  }

  predicate Less(x: Pair, y: Pair) { Cmp(x, y) < 0 }

  lemma {:induction false} MemCmpMirror(a: Bytes, b: Bytes)
    ensures MemCmp(b, a) == -MemCmp(a, b)
  {
    if a != [] && b != [] { MemCmpMirror(a[1..], b[1..]); }
  }

  lemma {:induction false} MemCmpZero(a: Bytes, b: Bytes)
    requires |a| == |b|
    ensures MemCmp(a, b) == 0 <==> a == b
  {
    if a != [] {
      MemCmpZero(a[1..], b[1..]);
      assert a == [a[0]] + a[1..] && b == [b[0]] + b[1..];
    }
  }

  lemma {:induction false} MemCmpTrans(a: Bytes, b: Bytes, c: Bytes)
    requires MemCmp(a, b) < 0 || (MemCmp(a, b) == 0 && |a| <= |b|)
    requires MemCmp(b, c) < 0 || (MemCmp(b, c) == 0 && |b| <= |c|)
    ensures MemCmp(a, c) < 0 || (MemCmp(a, c) == 0 && |a| <= |c|)
    ensures MemCmp(a, b) < 0 || MemCmp(b, c) < 0 || |a| < |b| || |b| < |c| ==>
            MemCmp(a, c) < 0 || (MemCmp(a, c) == 0 && |a| < |c|)
  {
    if a != [] && b != [] && c != [] && a[0] == b[0] == c[0] { MemCmpTrans(a[1..], b[1..], c[1..]); }
  }

  /** The comparison is a total order on pairs: antisymmetric, zero exactly on equal pairs, transitive. */
  lemma CmpIsOrder(x: Pair, y: Pair, z: Pair)
    ensures Cmp(y, x) == -Cmp(x, y)
    ensures Cmp(x, y) == 0 <==> x == y
    ensures Less(x, y) && Less(y, z) ==> Less(x, z)
  {
    MemCmpMirror(x.name, y.name);
    if |x.name| == |y.name| { MemCmpZero(x.name, y.name); }
    if Less(x, y) && Less(y, z) && x.score == y.score == z.score { MemCmpTrans(x.name, y.name, z.name); }
  }

  // ----- what the order is, in numbers and bytes -----

  /** a comes before b in a dictionary: a smaller byte at the first difference, or b goes on where a ends. */
  ghost predicate LexBefore(a: Bytes, b: Bytes) {
    exists i | 0 <= i <= |a| && i <= |b| && a[..i] == b[..i] ::
      if i == |a| then i < |b| else i < |b| && a[i] < b[i]
  }

  /** A lower score comes first; pairs of one score come in the order of their names. */
  ghost predicate Before(x: Pair, y: Pair) {
    x.score < y.score || (x.score == y.score && LexBefore(x.name, y.name))
  }

  lemma LexNext(a: Bytes, b: Bytes)
    requires a != [] && b != []
    ensures LexBefore(a, b) <==> a[0] < b[0] || (a[0] == b[0] && LexBefore(a[1..], b[1..]))
  {
    hide LexBefore;
    if LexBefore(a, b) { LexTail(a, b); }
    if a[0] < b[0] { LexFirst(a, b); }
    if a[0] == b[0] && LexBefore(a[1..], b[1..]) { LexCons(a, b); }
  }

  lemma LexFirst(a: Bytes, b: Bytes)
    requires a != [] && b != [] && a[0] < b[0]
    ensures LexBefore(a, b)
  {
    assert a[..0] == b[..0];
  }

  lemma LexTail(a: Bytes, b: Bytes)
    requires a != [] && b != [] && LexBefore(a, b)
    ensures a[0] < b[0] || (a[0] == b[0] && LexBefore(a[1..], b[1..]))
  {
    var i :| 0 <= i <= |a| && i <= |b| && a[..i] == b[..i] && if i == |a| then i < |b| else i < |b| && a[i] < b[i];
    if i > 0 {
      assert a[..i][0] == b[..i][0] && a[1..][..i - 1] == a[..i][1..] && b[1..][..i - 1] == b[..i][1..];
    }
  }

  lemma LexCons(a: Bytes, b: Bytes)
    requires a != [] && b != [] && a[0] == b[0] && LexBefore(a[1..], b[1..])
    ensures LexBefore(a, b)
  {
    var u, v := a[1..], b[1..];
    var i :| 0 <= i <= |u| && i <= |v| && u[..i] == v[..i] && if i == |u| then i < |v| else i < |v| && u[i] < v[i];
    assert a[..i + 1] == [a[0]] + u[..i] && b[..i + 1] == [b[0]] + v[..i];
  }

  lemma {:induction false} MemCmpMeans(a: Bytes, b: Bytes)
    ensures MemCmp(a, b) < 0 || (MemCmp(a, b) == 0 && |a| < |b|) <==> LexBefore(a, b)
  {
    if a == [] {
      assert a[..0] == b[..0];
    } else if b != [] {
      LexNext(a, b);
      MemCmpMeans(a[1..], b[1..]);
    }
  }

  /** The comparison is this order. */
  lemma LessMeans(x: Pair, y: Pair)
    ensures Less(x, y) <==> Before(x, y)
  {
    MemCmpMeans(x.name, y.name);
  }

  // ----- the hash of a name -----

  const HASH_SEED := 0x811C9DC5
  const HASH_PRIME := 0x01000193
  const TWO_32 := 0x1_0000_0000

  /** The 32-bit hash of a name, as a value. */
  function StrHash(data: Bytes): (h: nat)
    ensures h < TWO_32
  {
    if data == [] then HASH_SEED
    else ((StrHash(data[..|data| - 1]) + data[|data| - 1]) * HASH_PRIME) % TWO_32
  }

  /** str_hash: the accumulating loop over the bytes. */
  method ComputeHash(data: Bytes) returns (h: nat)
    ensures h == StrHash(data)
  {
    h := HASH_SEED;
    for i := 0 to |data|
      invariant h == StrHash(data[..i])
    {
      assert data[..i + 1][..i] == data[..i];
      h := ((h + data[i]) * HASH_PRIME) % TWO_32;
    }
    assert data[..|data|] == data;
  }

  /** The hash in numbers: where it starts, what one more byte does, and the hash of "key". */
  lemma HashMeans(data: Bytes, b: Byte)
    ensures StrHash([]) == 2166136261
    ensures StrHash(data + [b]) == (StrHash(data) + b) * 16777619 % 4294967296
    ensures StrHash([107, 101, 121]) == 219738616
  {
    assert (data + [b])[..|data|] == data;
    assert [107, 101, 121][..2] == [107, 101] && [107, 101][..1] == [107] && [107][..0] == [];
    assert StrHash([107]) == 1879901584;
    assert StrHash([107, 101]) == 1501585583;
  }
}
