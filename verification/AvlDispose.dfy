/**
 * Disposing of a whole tree, children before their parent.
 */
module AvlDispose {
  import opened Seqs
  import opened TreeShape
  import opened Avl

  function PostOrder<T>(t: Tree<T>): seq<T> {
    if t.Nil? then [] else PostOrder(t.l) + PostOrder(t.r) + [t.n]
  }

  /** Each node is disposed of exactly once. */
  lemma {:induction false} PostOrderOnce<T>(t: Tree<T>)
    requires Distinct(t)
    ensures NoDup(PostOrder(t)) && Elems(PostOrder(t)) == Nodes(t)
  {
    if t.Bin? {
      var l, r := PostOrder(t.l), PostOrder(t.r);
      PostOrderOnce(t.l);
      PostOrderOnce(t.r);
      ElemsConcat(l, r);
      ElemsConcat(l + r, [t.n]);
      NoDupAppend(l, r);
      assert Elems([t.n]) == {t.n};
      NoDupAppend(l + r, [t.n]);
    }
  }

  lemma PrefixHas<T>(a: seq<T>, b: seq<T>, i: nat, x: T)
    requires i <= |a| && x in a[..i]
    ensures x in (a + b)[..i]
  {
    assert (a + b)[..i] == a[..i];
  }

  lemma SuffixHas<T>(a: seq<T>, b: seq<T>, c: seq<T>, i: nat, x: T)
    requires i <= |b| && x in b[..i]
    ensures x in (a + b + c)[..|a| + i]
  {
    assert (a + b + c)[..|a| + i] == a + b[..i];
  }

  lemma ThreeParts<T>(a: seq<T>, b: seq<T>, x: T, i: nat)
    requires i <= |a| + |b|
    ensures var s := a + b + [x];
            if i < |a| then s[i] == a[i] else if i < |a| + |b| then s[i] == b[i - |a|] else s[i] == x && s[..i] == a + b
  {
  }

  lemma NodeAt<T>(t: Tree<T>, i: nat)
    requires Distinct(t) && i < |PostOrder(t)|
    ensures PostOrder(t)[i] in Nodes(t)
  {
    hide PostOrder, Nodes, Distinct;
    PostOrderOnce(t);
    assert PostOrder(t)[i] in Elems(PostOrder(t));
  }

  lemma BothParts<T>(t: Tree<T>, x: T)
    requires t.Bin? && Distinct(t) && x in Nodes(t) && x != t.n
    ensures x in PostOrder(t.l) + PostOrder(t.r)
  {
    PostOrderOnce(t.l);
    PostOrderOnce(t.r);
    assert x in Elems(PostOrder(t.l)) || x in Elems(PostOrder(t.r));
  }

  /** By the time a node is disposed of, every node below it has been. */
  lemma {:induction false} ChildrenFirst<T>(t: Tree<T>, i: nat, x: T)
    requires Distinct(t) && i < |PostOrder(t)| && PostOrder(t)[i] in Nodes(t)
    requires x in Nodes(Sub(t, PostOrder(t)[i])) && x != PostOrder(t)[i]
    ensures x in PostOrder(t)[..i]
  {
    var l, r := PostOrder(t.l), PostOrder(t.r);
    ThreeParts(l, r, t.n, i);
    if i < |l| {
      NodeAt(t.l, i);
      ChildrenFirst(t.l, i, x);
      PrefixHas(l, r + [t.n], i, x);
      assert PostOrder(t) == l + (r + [t.n]);
    } else if i < |l| + |r| {
      NodeAt(t.r, i - |l|);
      ChildrenFirst(t.r, i - |l|, x);
      SuffixHas(l, r, [t.n], i - |l|, x);
    } else {
      BothParts(t, x);
    }
  }

  /** tree_dispose: the order in which the nodes are freed. */
  method Dispose(node: ZNode?, ghost t: Tree<ZNode>, ghost p: ZNode?, ghost all: set<ZNode>) returns (freed: seq<ZNode>)
    requires node == Root(t) && Shape(t, p, Mem(all)) && Nodes(t) <= all
    ensures freed == PostOrder(t)
    decreases t
  {
    if node == null {
      return [];
    }
    var l := Dispose(node.left, t.l, node, all);
    var r := Dispose(node.right, t.r, node, all);
    freed := l + r + [node];
  }
}
