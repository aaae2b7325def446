/**
 * A finite map from names to scores listed by (score, name): what a sorted set means,
 * whatever tree or table holds it.
 */
module PairOrder {
  import opened Names
  import opened Seqs

  type Scores = map<Bytes, Score>

  /** Strictly increasing by (score, name). */
  ghost predicate Increasing(s: seq<Pair>) {
    forall i, j :: 0 <= i < j < |s| ==> Less(s[i], s[j])
  }

  /** s lists the pairs of m, each once, in increasing order. */
  ghost predicate Lists(s: seq<Pair>, m: Scores) {
    && Increasing(s)
    && (forall p <- s :: p.name in m && m[p.name] == p.score)
    && (forall n <- m :: P(m[n], n) in s)
  }

  /** The pair stored under a name. */
  ghost function PairOf(m: Scores, n: Bytes): Pair
    requires n in m
  {
    P(m[n], n)
  }

  /** The names whose pairs are less than p. */
  ghost function NamesBelow(m: Scores, p: Pair): set<Bytes> {
    set n | n in m && Less(PairOf(m, n), p)
  }

  /** The number of pairs less than p: its rank, or the place where it would be inserted. */
  ghost function Below(m: Scores, p: Pair): nat { |NamesBelow(m, p)| }

  ghost function Place(s: seq<Pair>, p: Pair): seq<Pair> {
    if s == [] || Less(p, s[0]) then [p] + s else [s[0]] + Place(s[1..], p)
  }

  /** The listing of a map, by inserting one pair after another. */
  ghost function Ordered(m: Scores): seq<Pair>
    decreases |m|
  {
    if m == map[] then []
    else
      var n :| n in m;
      Smaller(m, n);
      Place(Ordered(m - {n}), PairOf(m, n))
  }

  lemma Smaller(m: Scores, n: Bytes)
    requires n in m
    ensures |m - {n}| == |m| - 1
  {
  }

  lemma {:induction false} PlaceSorts(s: seq<Pair>, p: Pair)
    requires Increasing(s) && p !in s
    ensures Increasing(Place(s, p)) && Elems(Place(s, p)) == Elems(s) + {p}
  {
    if s != [] {
      CmpIsOrder(p, s[0], p);
      assert s == [s[0]] + s[1..];
      ElemsConcat([s[0]], s[1..]);
      if Less(p, s[0]) {
        ElemsConcat([p], s);
        forall j | 0 < j < |s| ensures Less(p, s[j]) { CmpIsOrder(p, s[0], s[j]); }
      } else {
        var r := Place(s[1..], p);
        PlaceSorts(s[1..], p);
        ElemsConcat([s[0]], r);
        forall j | 0 <= j < |r| ensures Less(s[0], r[j]) {
          assert r[j] in Elems(s[1..]) + {p};
          if r[j] != p { assert r[j] in s[1..]; }
        }
      }
    }
  }

  /** Adding a pair under a new name to a listing. */
  lemma PlaceLists(s: seq<Pair>, m: Scores, n: Bytes)
    requires n in m && Lists(s, m - {n})
    ensures Lists(Place(s, PairOf(m, n)), m)
  {
    hide Less;
    var p, m' := PairOf(m, n), m - {n};
    assert p !in s;
    PlaceSorts(s, p);
    var r := Place(s, p);
    forall x | x in r ensures x.name in m && m[x.name] == x.score { assert x in Elems(s) + {p}; }
    forall x | x in m ensures P(m[x], x) in r {
      if x != n { assert x in m' && P(m'[x], x) in s; }
      assert P(m[x], x) in Elems(r);
    }
  }

  lemma EmptyLists(m: Scores)
    requires m == map[]
    ensures Lists([], m)
  {
  }

  lemma {:induction false} OrderedLists(m: Scores)
    ensures Lists(Ordered(m), m)
    decreases |m|
  {
    hide Lists;
    if m == map[] {
      EmptyLists(m);
    } else {
      var n :| n in m && Ordered(m) == Place(Ordered(m - {n}), PairOf(m, n));
      Smaller(m, n);
      OrderedLists(m - {n});
      PlaceLists(Ordered(m - {n}), m, n);
    }
  }

  /** The place of p in a listing is the number of pairs below it. */
  lemma BelowIsPosition(s: seq<Pair>, m: Scores, p: Pair, i: nat)
    requires Lists(s, m) && i <= |s|
    requires forall j :: 0 <= j < i ==> Less(s[j], p)
    requires forall j :: i <= j < |s| ==> !Less(s[j], p)
    ensures Below(m, p) == i
  {
    var names := seq(i, j requires 0 <= j < i => s[j].name);
    forall j, k | 0 <= j < k < i ensures names[j] != names[k] {
      CmpIsOrder(s[j], s[k], s[j]);
      assert Less(s[j], s[k]) && s[j] in s && s[k] in s;
      assert s[j].name != s[k].name;
    }
    NoDupCount(names);
    forall n | n in NamesBelow(m, p) ensures n in Elems(names) {
      var j :| 0 <= j < |s| && s[j] == PairOf(m, n);
      assert names[j] == n;
    }
    forall n | n in Elems(names) ensures n in NamesBelow(m, p) {
      var j :| 0 <= j < i && names[j] == n;
      assert s[j] in s && s[j] == PairOf(m, n);
    }
    assert NamesBelow(m, p) == Elems(names);
  }

  /** An element of a listing stands at the place its rank names. */
  lemma RankIsPosition(s: seq<Pair>, m: Scores, i: nat)
    requires Lists(s, m) && i < |s|
    ensures Below(m, s[i]) == i
  {
    forall j | i <= j < |s| ensures !Less(s[j], s[i]) { CmpIsOrder(s[i], s[j], s[i]); }
    BelowIsPosition(s, m, s[i], i);
  }

  lemma ListLength(s: seq<Pair>, m: Scores)
    requires Lists(s, m)
    ensures |s| == |m|
  {
    var names := seq(|s|, j requires 0 <= j < |s| => s[j].name);
    forall j, k | 0 <= j < k < |s| ensures names[j] != names[k] {
      CmpIsOrder(s[j], s[k], s[j]);
      assert Less(s[j], s[k]) && s[j] in s && s[k] in s;
      assert s[j].name != s[k].name;
    }
    NoDupCount(names);
    forall n | n in m ensures n in Elems(names) {
      assert P(m[n], n) in s;
      var j :| 0 <= j < |s| && s[j] == P(m[n], n);
      assert names[j] == n;
    }
    forall n | n in Elems(names) ensures n in m {
      var j :| 0 <= j < |s| && names[j] == n;
      assert s[j] in s;
    }
    assert m.Keys == Elems(names);
  }

  /** A map has only one listing. */
  lemma ListingUnique(s: seq<Pair>, t: seq<Pair>, m: Scores)
    requires Lists(s, m) && Lists(t, m)
    ensures s == t
  {
    ListLength(s, m);
    ListLength(t, m);
    forall i | 0 <= i < |s| ensures s[i] == t[i] {
      RankIsPosition(s, m, i);
      assert s[i] in s;
      assert s[i] == PairOf(m, s[i].name) && s[i] in t;
      var j :| 0 <= j < |t| && t[j] == s[i];
      RankIsPosition(t, m, j);
    }
  }
}
