/**
 * The range query over one sorted set: seek, move, and output pairs.
 */
module Query {
  import opened Names
  import opened Bits
  import opened PairOrder
  import opened ZSets
  import opened Avl
  import opened Responses
  import opened Buffers
  import opened Output
  import A = Abstract

  /** node stands at position q of the listing o, or is null when q is no position of it. */
  ghost predicate StandsAt(z: ZSet, node: ZNode?, o: seq<Pair>, q: int)
    reads z, z.nodes`score
  {
    && (node == null <==> !(0 <= q < |o|))
    && (node != null ==> node in z.nodes && node.Pair() == o[q])
  }

  lemma ItemsAppend(s: seq<Pair>, p: Pair)
    ensures A.Items(s + [p]) == A.Items(s) + A.PairItems(p)
    ensures |A.Items(s)| == 2 * |s|
  {
    assert (s + [p])[..|s|] == s;
    ItemsLength(s);
  }

  lemma {:induction false} ItemsLength(s: seq<Pair>)
    ensures |A.Items(s)| == 2 * |s|
  {
    if s != [] { ItemsLength(s[..|s| - 1]); }
  }

  lemma EncodeItems(s: seq<Pair>, p: Pair)
    ensures EncodeAll(A.Items(s + [p])) == EncodeAll(A.Items(s)) + Encode(Str(p.name)) + Encode(Dbl(ScoreBits(p.score)))
  {
    hide Encode;
    var a, b := Str(p.name), Dbl(ScoreBits(p.score));
    ItemsAppend(s, p);
    assert A.Items(s) + A.PairItems(p) == A.Items(s) + [a] + [b];
    EncodeAppend(A.Items(s), a);
    EncodeAppend(A.Items(s) + [a], b);
  }

  /** The pair at position q follows those from start on. */
  lemma NextOf(o: seq<Pair>, start: nat, k: nat)
    requires start + k < |o|
    ensures o[start..start + k + 1] == o[start..start + k] + [o[start + k]]
  {
  }

  /** Output one pair. */
  method EmitPair(out: Buffer, node: ZNode, ghost was: Bytes, ghost done: seq<Pair>)
    requires out.Front() && out.Contents() == was + ArrHead(0) + EncodeAll(A.Items(done))
    modifies out, out.mem
    ensures out.Front() && (out.mem == old(out.mem) || fresh(out.mem))
    ensures out.Contents() == was + ArrHead(0) + EncodeAll(A.Items(done + [node.Pair()]))
  {
    hide Buffer.Contents, Buffer.Front, Encode, EncodeAll, ArrHead, ScoreBits;
    ghost var p := node.Pair();
    EncodeItems(done, p);
    Pieces(was + ArrHead(0), EncodeAll(A.Items(done)), Encode(Str(p.name)), Encode(Dbl(ScoreBits(p.score))), []);
    OutStr(out, node.name);
    OutDbl(out, node.score);
  }

  /** The buffer is no part of the set. */
  ghost predicate Aside(z: ZSet, out: Buffer)
    reads z, z.Repr, out
  {
    z.Ok() && out.Front() && out !in z.Repr && out.mem !in z.Repr
  }

  /** The node after one that stands at position q stands at q + 1. */
  method Next(z: ZSet, node: ZNode, ghost o: seq<Pair>, ghost q: nat) returns (r: ZNode?)
    requires z.Ok() && o == Ordered(z.scores) && StandsAt(z, node, o, q)
    ensures StandsAt(z, r, o, q + 1)
  {
    hide ZSet.Ok, ZSet.Valid, Ordered, Below, Lists;
    z.OkIsValid();
    OrderedLists(z.scores);
    RankIsPosition(o, z.scores, q);
    ghost var moves;
    r, moves := z.Offset(node, 1);
  }

  /** What the loop has output: the first k pairs of the slice that starts at q. */
  ghost function Done(o: seq<Pair>, q: int, k: nat): seq<Pair> {
    if 0 <= q && q + k <= |o| then o[q..q + k] else []
  }

  lemma NothingDone(o: seq<Pair>, q: int, was: Bytes)
    ensures EncodeAll(A.Items(Done(o, q, 0))) == [] && was + [] == was
  {
  }

  /** When the loop ends, the whole slice has been output. */
  lemma AllDone(o: seq<Pair>, q: int, k: nat, limit: int, more: bool)
    requires limit > 0 && (more <==> 0 <= q + k < |o|) && (more || k > 0 ==> 0 <= q && q + k <= |o|)
    requires k > 0 ==> 2 * k < limit + 2
    requires !more || 2 * k >= limit
    ensures Done(o, q, k) == A.Slice(o, q, A.PairLimit(limit))
  {
  }

  /** The output loop, from the node at position q. */
  method EmitFrom(z: ZSet, start: ZNode?, limit: int, out: Buffer, ghost o: seq<Pair>, ghost q: int)
    requires Aside(z, out) && limit > 0 && o == Ordered(z.scores) && StandsAt(z, start, o, q)
    modifies out, out.mem
    ensures out.Front() && (out.mem == old(out.mem) || fresh(out.mem))
    ensures out.Contents() == old(out.Contents()) + Encode(Arr(A.Items(A.Slice(o, q, A.PairLimit(limit)))))
  {
    hide ZSet.Ok, Ordered, Buffer.Contents, Buffer.Front, EncodeAll, ArrHead, A.Items, A.Slice, Encode;
    ghost var was := out.Contents();
    var pos := BeginArr(out);
    NothingDone(o, q, was + ArrHead(0));
    var n, node := 0, start;
    ghost var k := 0;
    while node != null && n < limit
      invariant Aside(z, out) && (out.mem == old(out.mem) || fresh(out.mem))
      invariant n == 2 * k && (node != null || k > 0 ==> 0 <= q && q + k <= |o|) && StandsAt(z, node, o, q + k)
      invariant k > 0 ==> n < limit + 2
      invariant out.Contents() == was + ArrHead(0) + EncodeAll(A.Items(Done(o, q, k)))
      decreases limit - n
    {
      NextOf(o, q, k);
      EmitPair(out, node, was, Done(o, q, k));
      n := n + 2;
      node := Next(z, node, o, q + k);
      k := k + 1;
    }
    assert Done(o, q, k) == A.Slice(o, q, A.PairLimit(limit)) by { AllDone(o, q, k, limit, node != null); }
    ItemsLength(Done(o, q, k));
    EndArr(out, pos, n, was, EncodeAll(A.Items(Done(o, q, k))));
    ArrIsHeadAndItems(A.Items(Done(o, q, k)));
  }

  /** zset_seek_ge, znode_offset, and the loop. */
  method EmitWindow(z: ZSet, p: Pair, offset: int, limit: int, out: Buffer)
    requires Aside(z, out) && limit > 0
    modifies out, out.mem
    ensures out.Front() && (out.mem == old(out.mem) || fresh(out.mem))
    ensures out.Contents() == old(out.Contents()) + Encode(Arr(A.Items(A.Window(z.scores, p, offset, limit))))
  {
    hide ZSet.Ok, ZSet.Valid, Ordered, Below, Lists, Encode, A.Items, A.Window, A.Slice, Buffer.Contents, Buffer.Front;
    z.OkIsValid();
    ghost var o := Ordered(z.scores);
    ghost var q := Start(z.scores, p, offset);
    WindowFrom(z.scores, p, offset, limit);
    var node := SeekOffset(z, p, offset);
    EmitFrom(z, node, limit, out, o, q);
  }

  /** Where the window begins: -1 when no pair is not less than p. */
  ghost function Start(m: Scores, p: Pair, offset: int): int {
    if Below(m, p) == |m| then -1 else Below(m, p) + offset
  }

  lemma WindowFrom(m: Scores, p: Pair, offset: int, limit: int)
    ensures A.Window(m, p, offset, limit) == A.Slice(Ordered(m), Start(m, p, offset), A.PairLimit(limit))
  {
  }

  /** zset_seek_ge and znode_offset. */
  method SeekOffset(z: ZSet, p: Pair, offset: int) returns (node: ZNode?)
    requires z.Valid()
    ensures StandsAt(z, node, Ordered(z.scores), Start(z.scores, p, offset))
  {
    hide ZSet.Ok, ZSet.Valid, Ordered, Below, Lists;
    ghost var o := Ordered(z.scores);
    OrderedLists(z.scores);
    ListLength(o, z.scores);
    ghost var moves;
    node, moves := z.SeekGe(p);
    if node != null { RankIsPosition(o, z.scores, Below(z.scores, p)); }
    node, moves := z.Offset(node, offset);
  }
}
