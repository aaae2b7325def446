/**
 * Little-endian numbers, and the 64-bit encodings of integers and scores.
 */
module Bits {
  import opened Names

  const TWO_63 := 0x8000_0000_0000_0000
  const TWO_64 := 0x1_0000_0000_0000_0000

  function Pow256(k: nat): (p: nat)
    ensures p > 0
  {
    if k == 0 then 1 else 256 * Pow256(k - 1)
  }

  /** The k low-order bytes of n, lowest first. */
  function Little(k: nat, n: nat): (s: Bytes)
    ensures |s| == k
  {
    if k == 0 then [] else [n % 256] + Little(k - 1, n / 256)
  }

  /** The number that little-endian bytes spell. */
  function Number(s: Bytes): (n: nat)
    ensures n < Pow256(|s|)
  {
    if s == [] then 0 else s[0] + 256 * Number(s[1..])
  }

  lemma {:induction false} NumberOfLittle(k: nat, n: nat)
    requires n < Pow256(k)
    ensures Number(Little(k, n)) == n
  {
    if k > 0 {
      assert n / 256 < Pow256(k - 1);
      NumberOfLittle(k - 1, n / 256);
      assert Little(k, n)[1..] == Little(k - 1, n / 256);
    }
  }

  lemma {:induction false} LittleOfNumber(s: Bytes)
    ensures Little(|s|, Number(s)) == s
  {
    if s != [] {
      LittleOfNumber(s[1..]);
      var n := Number(s);
      assert n % 256 == s[0] && n / 256 == Number(s[1..]);
    }
  }

  // ----- the order of the bytes -----

  /** The byte at place i is the one worth 256 to the i. */
  lemma {:induction false} LittleAt(k: nat, n: nat, i: nat)
    requires i < k
    ensures Little(k, n)[i] == n / Pow256(i) % 256
  {
    if i > 0 {
      LittleAt(k - 1, n / 256, i - 1);
      DivTwice(n, 256, Pow256(i - 1));
    }
  }

  lemma DivTwice(n: nat, a: nat, p: nat)
    requires a > 0 && p > 0
    ensures n / a / p == n / (a * p)
  {
    var q, r, t := n / a / p, n / a % p, n % a;
    Distribute(a, p, q, r);
    assert n == a * (n / a) + t && n / a == p * q + r;
    Remainder(a, p, r, t);
    QuotientIs(n, a * p, q, a * r + t);
  }

  lemma Distribute(a: int, p: int, q: int, r: int)
    ensures a * (p * q + r) == (a * p) * q + a * r
  {
  }

  lemma Remainder(a: nat, p: nat, r: nat, t: nat)
    requires t < a && r < p
    ensures a * p > 0 && a * r + t < a * p
  {
    assert a * (r + 1) <= a * p;
  }

  lemma QuotientIs(n: nat, d: nat, q: nat, r: nat)
    requires n == d * q + r && r < d
    ensures n / d == q
  {
    var m, t := n / d, n % d;
    assert d * (q - m) == t - r by { Spread(d, q, m); }
    NoMultiple(d, q - m);
  }

  lemma Spread(d: int, q: int, m: int)
    ensures d * (q - m) == d * q - d * m
  {
  }

  lemma NoMultiple(d: int, x: int)
    requires -d < d * x < d
    ensures x == 0
  {
  }

  /** The number is the sum of its bytes, each by what its place is worth. */
  function Worth(s: Bytes): nat {
    if s == [] then 0 else Worth(s[..|s| - 1]) + s[|s| - 1] * Pow256(|s| - 1)
  }

  lemma {:induction false} NumberIsSum(s: Bytes)
    ensures Number(s) == Worth(s)
  {
    if s != [] {
      hide Number;
      NumberIsSum(s[..|s| - 1]);
      NumberOfLast(s[..|s| - 1], s[|s| - 1]);
      assert s == s[..|s| - 1] + [s[|s| - 1]];
    } else {
      assert Number([]) == 0;
    }
  }

  lemma {:induction false} NumberOfLast(s: Bytes, b: Byte)
    ensures Number(s + [b]) == Number(s) + b * Pow256(|s|)
  {
    if s == [] {
      assert ([b])[1..] == [];
    } else {
      assert (s + [b])[1..] == s[1..] + [b];
      NumberOfLast(s[1..], b);
      assert 256 * (b * Pow256(|s| - 1)) == b * (256 * Pow256(|s| - 1));
    }
  }

  lemma Powers()
    ensures Pow256(4) == TWO_32 && Pow256(8) == TWO_64
  {
  }

  /** A number stored through a uint32_t. */
  function U32(n: nat): (s: Bytes)
    ensures |s| == 4
  {
    Little(4, n % TWO_32)
  }

  /** An integer stored as 64 bits, two's complement. */
  function U64(v: int): (s: Bytes)
    ensures |s| == 8
  {
    Little(8, v % TWO_64)
  }

  predicate IsInt64(v: int) { -TWO_63 <= v < TWO_63 }

  /** The int64_t that 64 bits stand for. */
  function Signed(n: nat): int { if n < TWO_63 then n else n - TWO_64 }

  lemma {:induction false} U32RoundTrip(n: nat, s: Bytes)
    ensures Number(U32(n)) == n % TWO_32
    ensures |s| == 4 ==> Number(s) < TWO_32 && U32(Number(s)) == s
  {
    hide Number, Little, Pow256;
    Powers();
    NumberOfLittle(4, n % TWO_32);
    if |s| == 4 { LittleOfNumber(s); }
  }

  lemma SignedWraps(v: int, n: nat)
    ensures IsInt64(v) ==> Signed(v % TWO_64) == v
    ensures n < TWO_64 ==> IsInt64(Signed(n)) && Signed(n) % TWO_64 == n
  {
  }

  lemma U64RoundTrip(v: int, s: Bytes)
    ensures Number(U64(v)) == v % TWO_64
    ensures IsInt64(v) ==> Signed(Number(U64(v))) == v
    ensures |s| == 8 ==> Number(s) < TWO_64 && U64(Number(s)) == s && U64(Signed(Number(s))) == s
    ensures |s| == 8 ==> IsInt64(Signed(Number(s)))
  {
    hide Signed, IsInt64, Pow256, Little, Number;
    Powers();
    NumberOfLittle(8, v % TWO_64);
    SignedWraps(v, 0);
    if |s| == 8 {
      var n := Number(s);
      assert n < Pow256(8);
      LittleOfNumber(s);
      SignedWraps(0, n);
    }
  }

  // ----- in numerals -----

  /** The four bytes of a number, lowest first. */
  lemma U32Bytes(n: nat)
    requires n < 0x1_0000_0000
    ensures U32(n) == [n % 0x100, n / 0x100 % 0x100, n / 0x1_0000 % 0x100, n / 0x100_0000 % 0x100]
  {
    assert Pow256(1) == 0x100 && Pow256(2) == 0x1_0000 && Pow256(3) == 0x100_0000;
    LittleAt(4, n, 0);
    LittleAt(4, n, 1);
    LittleAt(4, n, 2);
    LittleAt(4, n, 3);
  }

  /** The eight bytes of an integer, lowest first, those of v + 2^64 when v is negative. */
  lemma U64Bytes(v: int, i: nat)
    requires IsInt64(v) && i < 8
    ensures var n := if v < 0 then v + 0x1_0000_0000_0000_0000 else v;
            n >= 0 && U64(v)[i] == n / Pow256(i) % 0x100
  {
    hide Pow256, Little;
    WrapNegative(v);
    LittleAt(8, v % TWO_64, i);
  }

  lemma WrapNegative(v: int)
    requires IsInt64(v)
    ensures v % TWO_64 == if v < 0 then v + 0x1_0000_0000_0000_0000 else v
  {
  }

  lemma PlacesAreWorth()
    ensures Pow256(0) == 1 && Pow256(1) == 0x100 && Pow256(2) == 0x1_0000 && Pow256(3) == 0x100_0000
    ensures Pow256(4) == 0x1_0000_0000 && Pow256(5) == 0x100_0000_0000
    ensures Pow256(6) == 0x1_0000_0000_0000 && Pow256(7) == 0x100_0000_0000_0000
  {
  }

  /** The number that four bytes spell. */
  lemma NumberOfFour(s: Bytes)
    requires |s| == 4
    ensures Number(s) == s[0] + 0x100 * (s[1] as int) + 0x1_0000 * (s[2] as int) + 0x100_0000 * (s[3] as int)
  {
    hide Number;
    LowestFirst(s, 0);
    LowestFirst(s, 1);
    LowestFirst(s, 2);
    LowestFirst(s, 3);
    assert s[0..] == s;
    NumberOfNone(s[4..]);
  }

  lemma LowestFirst(s: Bytes, i: nat)
    requires i < |s|
    ensures Number(s[i..]) == s[i] + 256 * Number(s[i + 1..])
  {
    assert s[i..][1..] == s[i + 1..];
  }

  lemma NumberOfNone(s: Bytes)
    requires s == []
    ensures Number(s) == 0
  {
  }

  // ----- the bits of a score -----

  /** The IEEE 754 encoding of a score: sign and magnitude. */
  function ScoreBits(x: Score): (n: nat)
    ensures n < TWO_64
  {
    if x >= 0 then x else TWO_63 - x
  }

  /** The highest bit says that the score is negative, the others how far from zero it stands. */
  lemma ScoreBitsMean(x: Score)
    ensures ScoreBits(x) / TWO_63 == (if x < 0 then 1 else 0) && ScoreBits(x) % TWO_63 == if x < 0 then -x else x
  {
  }

  lemma ScoreBitsDiffer(x: Score, y: Score)
    requires ScoreBits(x) == ScoreBits(y)
    ensures x == y
  {
  }

  // ----- scores and the doubles they stand for -----

  const TWO_52 := 0x10_0000_0000_0000

  /** m times 2 to the e. */
  function Scaled(m: nat, e: nat): nat { if e == 0 then m else 2 * Scaled(m, e - 1) }

  /**
   * What the 63 low bits of an IEEE 754 double stand for, in units of the least positive double: 11 bits of
   * exponent and 52 bits of fraction, with a hidden bit unless the exponent is zero.
   */
  function Magnitude(m: nat): nat {
    if m / TWO_52 == 0 then m % TWO_52 else Scaled(TWO_52 + m % TWO_52, m / TWO_52 - 1)
  }

  /** The value of the 64 bits of a double; infinity is above all that is finite. */
  function DoubleValue(bits: nat): int {
    if bits / TWO_63 == 0 then Magnitude(bits % TWO_63) else -(Magnitude(bits % TWO_63) as int)
  }

  lemma {:induction false} ScaledGrows(m: nat, n: nat, e: nat)
    requires m < n
    ensures Scaled(m, e) < Scaled(n, e)
  {
    if e > 0 { ScaledGrows(m, n, e - 1); }
  }

  lemma {:induction false} ScaledTwice(m: nat, e: nat)
    ensures Scaled(2 * m, e) == Scaled(m, e + 1)
  {
    if e > 0 { ScaledTwice(m, e - 1); }
  }

  /** The next encoding stands for a larger magnitude, also across a change of exponent. */
  lemma MagnitudeNext(m: nat)
    ensures Magnitude(m) < Magnitude(m + 1)
  {
    var e, f := m / TWO_52, m % TWO_52;
    if f + 1 < TWO_52 {
      assert (m + 1) / TWO_52 == e && (m + 1) % TWO_52 == f + 1;
      if e > 0 { ScaledGrows(TWO_52 + f, TWO_52 + f + 1, e - 1); }
    } else {
      assert (m + 1) / TWO_52 == e + 1 && (m + 1) % TWO_52 == 0;
      if e > 0 {
        ScaledGrows(TWO_52 + f, 2 * TWO_52, e - 1);
        ScaledTwice(TWO_52, e - 1);
      }
    }
  }

  lemma {:induction false} MagnitudeGrows(m: nat, n: nat)
    requires m < n
    ensures Magnitude(m) < Magnitude(n)
    decreases n - m
  {
    hide Magnitude;
    MagnitudeNext(m);
    if m + 1 < n { MagnitudeGrows(m + 1, n); }
  }

  /** Scores are in the order of the doubles that their bits encode. */
  lemma ScoresAreInOrder(x: Score, y: Score)
    ensures x < y <==> DoubleValue(ScoreBits(x)) < DoubleValue(ScoreBits(y))
  {
    if x < y {
      SmallerScore(x, y);
    } else if y < x {
      SmallerScore(y, x);
    }
  }

  lemma SmallerScore(x: Score, y: Score)
    requires x < y
    ensures DoubleValue(ScoreBits(x)) < DoubleValue(ScoreBits(y))
  {
    hide Magnitude;
    ScoreBitsMean(x);
    ScoreBitsMean(y);
    if 0 <= x {
      MagnitudeGrows(x, y);
    } else if y < 0 {
      MagnitudeGrows(-y, -x);
    } else {
      ZeroMagnitude();
      MagnitudeGrows(0, -x);
      if y > 0 { MagnitudeGrows(0, y); }
    }
  }

  lemma ZeroMagnitude()
    ensures Magnitude(0) == 0
  {
  }
}
