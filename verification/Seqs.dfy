/**
 * Facts about sequences that the other modules share.
 */
module Seqs {
  ghost function Elems<T>(s: seq<T>): set<T> { set x | x in s }

  ghost predicate NoDup<T>(s: seq<T>) {
    forall i, j :: 0 <= i < j < |s| ==> s[i] != s[j]
  }

  lemma NoDupConcat<T>(a: seq<T>, x: T, b: seq<T>)
    ensures NoDup(a + [x] + b) <==>
            NoDup(a) && NoDup(b) && x !in a && x !in b && Elems(a) !! Elems(b)
  {
    var s := a + [x] + b;
    if NoDup(s) {
      forall i, j | 0 <= i < j < |a| ensures a[i] != a[j] { assert s[i] == a[i] && s[j] == a[j]; }
      forall i, j | 0 <= i < j < |b| ensures b[i] != b[j] {
        assert s[|a| + 1 + i] == b[i] && s[|a| + 1 + j] == b[j];
      }
      forall i | 0 <= i < |a| ensures a[i] != x { assert s[i] == a[i] && s[|a|] == x; }
      forall i | 0 <= i < |b| ensures b[i] != x { assert s[|a|] == x && s[|a| + 1 + i] == b[i]; }
      forall i, j | 0 <= i < |a| && 0 <= j < |b| ensures a[i] != b[j] {
        assert s[i] == a[i] && s[|a| + 1 + j] == b[j];
      }
    } else {
      var i, j :| 0 <= i < j < |s| && s[i] == s[j];
      if j < |a| { assert a[i] == a[j]; }
      else if i > |a| { assert b[i - |a| - 1] == b[j - |a| - 1]; }
      else if i < |a| && j > |a| { assert s[i] in Elems(a) && s[j] in Elems(b); }
    }
  }

  lemma NoDupDrop<T>(a: seq<T>, x: T, b: seq<T>)
    requires NoDup(a + [x] + b)
    ensures NoDup(a + b)
  {
    var s, u := a + [x] + b, a + b;
    forall i, j | 0 <= i < j < |u| ensures u[i] != u[j] {
      var i' := if i < |a| then i else i + 1;
      var j' := if j < |a| then j else j + 1;
      assert s[i'] == u[i] && s[j'] == u[j];
    }
  }

  lemma ElemsConcat<T>(a: seq<T>, b: seq<T>)
    ensures Elems(a + b) == Elems(a) + Elems(b)
  {
  }

  lemma SplitUnique<T>(a: seq<T>, x: T, b: seq<T>, c: seq<T>, d: seq<T>)
    requires a + [x] + b == c + [x] + d
    requires x !in a && x !in c
    ensures a == c && b == d
  {
    var s := a + [x] + b;
    assert s[|a|] == x && s[|c|] == x;
    assert forall i :: 0 <= i < |a| ==> s[i] == a[i];
    assert forall i :: 0 <= i < |c| ==> s[i] == c[i];
    assert |a| == |c|;
    assert s[..|a|] == a && s[..|c|] == c && s[|a| + 1..] == b && s[|c| + 1..] == d;
  }

  lemma Regroup<T>(p: seq<T>, l: seq<T>, x: T, r: seq<T>, q: seq<T>)
    ensures p + (l + [x] + r) + q == (p + l) + [x] + (r + q)
  {
  }

  /** The middle part taken apart, from the left or from the right. */
  lemma Unpack<T>(p: seq<T>, l: seq<T>, x: T, r: seq<T>, q: seq<T>)
    ensures p + (l + [x] + r) + q == p + l + ([x] + r + q)
    ensures p + (l + [x] + r) + q == p + l + [x] + r + q
  {
  }

  lemma Regroup2<T>(p: seq<T>, r: seq<T>, q: seq<T>)
    ensures p + [] + r + q == p + (r + q) == p + r + q
  {
  }

  lemma TailRegroup<T>(a: seq<T>, x: T, b: seq<T>, c: seq<T>)
    requires a != []
    ensures (a + [x] + b)[1..] + c == a[1..] + ([x] + b + c)
    ensures (a + [x] + b)[0] == a[0]
  {
  }

  lemma Reattach<T>(a: seq<T>, x: T, s: seq<T>, q: seq<T>)
    requires s != [] && s[0] == x
    ensures a + [x] + (s[1..] + q) == a + (s + q)
  {
  }

  lemma Reattach0<T>(x: T, s: seq<T>, q: seq<T>)
    requires s != [] && s[0] == x
    ensures [x] + (s[1..] + q) == s + q
  {
  }

  lemma Shift<T>(a: seq<T>, x: T, b: seq<T>, y: T, c: seq<T>)
    ensures (a + [x] + b) + [y] + c == a + [x] + (b + [y] + c)
  {
  }

  lemma MidIndex<T>(p: seq<T>, l: seq<T>, x: T, r: seq<T>, q: seq<T>)
    ensures var s := p + (l + [x] + r) + q;
            |s| == |p| + |l| + 1 + |r| + |q| && s[|p| + |l|] == x
  {
  }

  /** s with the first occurrence of x taken out. */
  ghost function Without<T>(s: seq<T>, x: T): seq<T> {
    if s == [] then [] else if s[0] == x then s[1..] else [s[0]] + Without(s[1..], x)
  }

  lemma {:induction false} WithoutSplit<T>(a: seq<T>, x: T, b: seq<T>)
    requires x !in a
    ensures Without(a + [x] + b, x) == a + b
  {
    var s := a + [x] + b;
    if a != [] {
      assert s[1..] == a[1..] + [x] + b;
      WithoutSplit(a[1..], x, b);
    }
  }

  lemma {:induction false} WithoutNoDup<T>(s: seq<T>, x: T)
    requires NoDup(s) && x in s
    ensures NoDup(Without(s, x)) && Elems(Without(s, x)) == Elems(s) - {x}
  {
    var i :| 0 <= i < |s| && s[i] == x;
    var a, b := s[..i], s[i + 1..];
    assert s == a + [x] + b;
    NoDupConcat(a, x, b);
    WithoutSplit(a, x, b);
    NoDupDrop(a, x, b);
    ElemsConcat(a + [x], b);
    ElemsConcat(a, [x]);
    ElemsConcat(a, b);
  }

  lemma PositionUnique<T>(s: seq<T>, i: nat, j: nat)
    requires NoDup(s) && i < |s| && j < |s| && s[i] == s[j]
    ensures i == j
  {
  }

  function Flatten<T>(s: seq<seq<T>>): seq<T> {
    if s == [] then [] else Flatten(s[..|s| - 1]) + s[|s| - 1]
  }

  lemma NoDupAppend<T>(a: seq<T>, b: seq<T>)
    requires NoDup(a) && NoDup(b) && Elems(a) !! Elems(b)
    ensures NoDup(a + b)
  {
    var s := a + b;
    forall i, j | 0 <= i < j < |s| ensures s[i] != s[j] {
      if i < |a| && |a| <= j { assert s[i] in Elems(a) && s[j] in Elems(b); }
    }
  }

  lemma PrefixNoDup<T>(a: seq<T>, b: seq<T>)
    requires NoDup(a + b)
    ensures NoDup(a)
  {
    forall i, j | 0 <= i < j < |a| ensures a[i] != a[j] { assert (a + b)[i] == a[i] && (a + b)[j] == a[j]; }
  }

  lemma ConcatNoDup<T>(a: seq<T>, b: seq<T>)
    requires NoDup(a + b)
    ensures NoDup(a) && NoDup(b) && Elems(a) !! Elems(b) && Elems(a + b) == Elems(a) + Elems(b)
  {
    PrefixNoDup(a, b);
    ElemsConcat(a, b);
    var s := a + b;
    forall i, j | 0 <= i < j < |b| ensures b[i] != b[j] { assert s[|a| + i] == b[i] && s[|a| + j] == b[j]; }
    forall i, j | 0 <= i < |a| && 0 <= j < |b| ensures a[i] != b[j] { assert s[i] == a[i] && s[|a| + j] == b[j]; }
  }

  /** A sequence without duplicates is as long as its set of elements is large. */
  lemma {:induction false} NoDupCount<T>(s: seq<T>)
    requires NoDup(s)
    ensures |Elems(s)| == |s|
  {
    if s != [] {
      var a, x := s[..|s| - 1], s[|s| - 1];
      assert s == a + [x];
      ElemsConcat(a, [x]);
      assert Elems([x]) == {x};
      NoDupCount(a);
      assert x !in Elems(a) by { assert forall i :: 0 <= i < |a| ==> a[i] == s[i] != s[|s| - 1]; }
      assert Elems(s) == Elems(a) + {x};
    }
  }

  lemma InsertedElems<T>(s: seq<T>, pos: nat, x: T)
    requires pos <= |s|
    ensures Elems(s[..pos] + [x] + s[pos..]) == Elems(s) + {x}
  {
  }
}
