/**
 * The walks over the AVL tree that depend on the order of the nodes: insertion, seeking,
 * ranks and offsets.
 */
module AvlSearch {
  import opened Names
  import opened Seqs
  import opened TreeShape
  import opened Avl

  /** A snapshot of the (score, name) pairs of a set of nodes. */
  type Keys = map<ZNode, Pair>

  ghost function KeysOf(s: set<ZNode>): Keys
    reads s`score
  {
    map n | n in s :: n.Pair()
  }

  /** Strictly increasing by (score, name). */
  ghost predicate Sorted(s: seq<ZNode>, k: Keys) {
    && Elems(s) <= k.Keys
    && forall i, j :: 0 <= i < j < |s| ==> Less(k[s[i]], k[s[j]])
  }

  ghost predicate AllLess(s: seq<ZNode>, p: Pair, k: Keys) {
    forall y <- s :: y in k && Less(k[y], p)
  }

  ghost predicate AllGreater(s: seq<ZNode>, p: Pair, k: Keys) {
    forall y <- s :: y in k && Less(p, k[y])
  }

  /** An increasing sequence splits at any element. */
  lemma SortedSplit(a: seq<ZNode>, x: ZNode, b: seq<ZNode>, k: Keys)
    requires Sorted(a + [x] + b, k)
    ensures x in k && AllLess(a, k[x], k) && AllGreater(b, k[x], k)
    ensures Sorted(a + b, k)
  {
    var s, u := a + [x] + b, a + b;
    assert forall i :: 0 <= i < |a| ==> s[i] == a[i];
    assert forall i :: 0 <= i < |b| ==> s[|a| + 1 + i] == b[i];
    assert s[|a|] == x && x in Elems(s) && (forall y :: y in u ==> y in Elems(s));
    forall i, j | 0 <= i < j < |u| ensures Less(k[u[i]], k[u[j]]) {
      assert u[i] == s[if i < |a| then i else i + 1] && u[j] == s[if j < |a| then j else j + 1];
    }
  }

  /** Inserting between the smaller and the larger elements keeps the sequence increasing. */
  lemma SortedJoin(a: seq<ZNode>, x: ZNode, b: seq<ZNode>, k: Keys)
    requires Sorted(a + b, k) && x in k && AllLess(a, k[x], k) && AllGreater(b, k[x], k)
    ensures Sorted(a + [x] + b, k)
  {
    var s, u := a + [x] + b, a + b;
    forall i, j | 0 <= i < j < |s| ensures Less(k[s[i]], k[s[j]]) {
      if j < |a| { assert s[i] == u[i] && s[j] == u[j]; }
      else if i > |a| { assert s[i] == u[i - 1] && s[j] == u[j - 1]; }
      else if i < |a| && j > |a| { assert s[i] == u[i] && s[j] == u[j - 1]; }
      else if i == |a| { assert s[j] == b[j - |a| - 1]; }
      else { assert s[i] == a[i]; }
    }
    forall y | y in Elems(s) ensures y in k.Keys { assert y == x || y in Elems(u); }
  }

  lemma SortedFrame(s: seq<ZNode>, k: Keys, k': Keys)
    requires Sorted(s, k) && forall y <- s :: y in k' && k'[y] == k[y]
    ensures Sorted(s, k')
  {
  }

  /** The search has narrowed the place of p to the hole of ctx. */
  ghost predicate Brackets(ctx: Ctx<ZNode>, p: Pair, k: Keys) {
    AllLess(Pre(ctx), p, k) && AllGreater(Post(ctx), p, k)
  }

  /** Comparing with the root of the subtree in the hole decides for its whole other half. */
  lemma Narrow(ctx: Ctx<ZNode>, t: Tree<ZNode>, p: Pair, k: Keys)
    requires t.Bin? && Sorted(Order(Plug(ctx, t)), k) && Brackets(ctx, p, k)
    ensures t.n in k
    ensures Less(p, k[t.n]) ==> Brackets(InLeft(ctx, t.n, t.r), p, k)
    ensures Less(k[t.n], p) ==> Brackets(InRight(ctx, t.l, t.n), p, k)
  {
    PlugOrder(ctx, t);
    var a, b := Pre(ctx) + Order(t.l), Order(t.r) + Post(ctx);
    Regroup(Pre(ctx), Order(t.l), t.n, Order(t.r), Post(ctx));
    SortedSplit(a, t.n, b, k);
    forall y | y in Order(t.l) && Less(k[t.n], p) ensures y in k && Less(k[y], p) {
      assert y in a;
      CmpIsOrder(k[y], k[t.n], p);
    }
    forall y | y in Order(t.r) && Less(p, k[t.n]) ensures y in k && Less(p, k[y]) {
      assert y in b;
      CmpIsOrder(p, k[t.n], k[y]);
    }
  }

  /** The new leaf linked under the node where the search ended. */
  lemma LeafAtHole(ctx: Ctx<ZNode>, node: ZNode, m: Memory, m1: Memory, m2: Memory)
    requires CtxDistinct(ctx) && node !in CtxNodes(ctx) && Path(ctx, null, m)
    requires node in m && m[node].left == null && m[node].right == null
    requires m1 == m[node := m[node].(parent := Par(ctx))]
    requires m2 == if ctx.Top? then m1 else m1[ctx.n := WithChild(m1[ctx.n], ctx.InLeft?, node)]
    ensures AtHole(ctx, Bin(Nil, node, Nil), m2)
  {
    PathFrame(ctx, null, m, m1);
    PathRelink(ctx, null, node, m1, m2);
  }

  lemma {:induction false} LeafOrder(ctx: Ctx<ZNode>, node: ZNode)
    ensures Order(Rebuild(ctx, Bin(Nil, node, Nil))) == Pre(ctx) + [node] + Post(ctx)
    ensures Order(Plug(ctx, Nil)) == Pre(ctx) + Post(ctx)
  {
    RebuildKeepsOrder(ctx, Bin(Nil, node, Nil));
    PlugOrder(ctx, Bin(Nil, node, Nil));
    PlugOrder(ctx, Nil);
  }

  lemma LeafBalances(ctx: Ctx<ZNode>, node: ZNode)
    requires Balanced(Plug(ctx, Nil))
    ensures Balanced(Rebuild(ctx, Bin(Nil, node, Nil)))
  {
    PlugBalanced(ctx, Nil);
    RebuildBalances(ctx, Bin(Nil, node, Nil), 0);
  }

  lemma LeafDistinct(ctx: Ctx<ZNode>, node: ZNode)
    requires Distinct(Plug(ctx, Nil)) && node !in CtxNodes(ctx)
    ensures Distinct(Rebuild(ctx, Bin(Nil, node, Nil)))
  {
    RebuildKeepsOrder(ctx, Bin(Nil, node, Nil));
    SameOrder(Rebuild(ctx, Bin(Nil, node, Nil)), Plug(ctx, Bin(Nil, node, Nil)));
    PlugDistinct(ctx, Bin(Nil, node, Nil));
    PlugDistinct(ctx, Nil);
  }

  /** Attach node at the hole of ctx and rebalance. */
  method Attach(node: ZNode, parent: ZNode?, fromLeft: bool, ghost ctx: Ctx<ZNode>, ghost all: set<ZNode>)
    returns (root: ZNode)
    requires CtxNodes(ctx) + {node} <= all && CtxDistinct(ctx) && node !in CtxNodes(ctx)
    requires Path(ctx, null, Mem(all)) && parent == Par(ctx) && (parent != null ==> fromLeft == ctx.InLeft?)
    requires node.left == null && node.right == null
    modifies all`parent, all`left, all`right, all`height, all`cnt
    ensures root == Root(Rebuild(ctx, Bin(Nil, node, Nil)))
    ensures Shape(Rebuild(ctx, Bin(Nil, node, Nil)), null, Mem(all))
    ensures KeysOf(all) == old(KeysOf(all))
  {
    hide AtHole, Path;
    Hang(node, parent, fromLeft, ctx, all);
    root := Fix(node, ctx, Bin(Nil, node, Nil), all);
  }

  /** Both links between node and the parent at the hole. */
  method Hang(node: ZNode, parent: ZNode?, fromLeft: bool, ghost ctx: Ctx<ZNode>, ghost all: set<ZNode>)
    requires CtxNodes(ctx) + {node} <= all && CtxDistinct(ctx) && node !in CtxNodes(ctx)
    requires Path(ctx, null, Mem(all)) && parent == Par(ctx) && (parent != null ==> fromLeft == ctx.InLeft?)
    requires node.left == null && node.right == null
    modifies all`parent, all`left, all`right
    ensures AtHole(ctx, Bin(Nil, node, Nil), Mem(all))
  {
    hide AtHole, Path;
    ghost var m := Mem(all);
    node.parent := parent;
    ghost var m1 := Mem(all);
    if parent != null {
      SetChild(parent, fromLeft, node, all);
    }
    LeafAtHole(ctx, node, m, m1, Mem(all));
  }

  /** The depth of a node is that of its place in the order. */
  lemma RankDepth(ctx: Ctx<ZNode>, sub: Tree<ZNode>, pos: nat)
    requires sub.Bin? && pos == |Pre(ctx)| + C(sub.l)
    ensures DepthAt(Plug(ctx, sub), pos) == Depth(ctx) < H(Plug(ctx, sub))
  {
    DepthAtPlug(ctx, sub, C(sub.l));
    PlugHeight(ctx, sub);
  }

  lemma HolePosition(ctx: Ctx<ZNode>)
    ensures HoleDepth(Plug(ctx, Nil), |Pre(ctx)|) == Depth(ctx) <= H(Plug(ctx, Nil))
  {
    HoleDepthPlug(ctx, Nil, 0);
    PlugHeight(ctx, Nil);
  }

  /** Walk down to the place of node; dup when a node with the same pair stands in the way. */
  method FindPlace(root: ZNode?, node: ZNode, ghost t: Tree<ZNode>, ghost all: set<ZNode>)
    returns (parent: ZNode?, fromLeft: bool, dup: bool, ghost ctx: Ctx<ZNode>, ghost pos: nat, ghost moves: nat)
    requires IsTree(root, t, Mem(all)) && Sorted(Order(t), KeysOf(all)) && Nodes(t) <= all
    ensures dup ==> parent != null && At(Order(t), pos) == parent && parent.Pair() == node.Pair()
    ensures !dup ==> Plug(ctx, Nil) == t && Brackets(ctx, node.Pair(), KeysOf(all))
    ensures !dup ==> parent == Par(ctx) && (parent != null ==> fromLeft == ctx.InLeft?)
    ensures !dup ==> Path(ctx, null, Mem(all)) && pos == |Pre(ctx)|
    ensures moves == (if dup then DepthAt(t, pos) + 1 else HoleDepth(t, pos)) <= H(t)
  {
    hide H, C, DepthAt, HoleDepth;
    parent, fromLeft, dup, moves := null, false, false, 0;
    var at := root;
    ghost var m, k, p := Mem(all), KeysOf(all), node.Pair();
    ghost var sub := t;
    ctx := Top;
    while at != null
      invariant at == Root(sub) && parent == Par(ctx) && (parent != null ==> fromLeft == ctx.InLeft?)
      invariant Plug(ctx, sub) == t && Brackets(ctx, p, k) && Nodes(sub) <= Nodes(t)
      invariant Shape(sub, Par(ctx), m) && Path(ctx, at, m) && moves == Depth(ctx)
      decreases sub
    {
      moves := moves + 1;
      parent := at;
      var c := Cmp(node.Pair(), parent.Pair());
      Narrow(ctx, sub, p, k);
      CmpIsOrder(p, k[at], p);
      if c == 0 {
        pos := |Pre(ctx)| + C(sub.l);
        Arrived(ctx, sub, t, pos);
        RankDepth(ctx, sub, pos);
        return parent, fromLeft, true, ctx, pos, moves;
      }
      fromLeft := c < 0;
      if fromLeft {
        at := parent.left;
        ctx, sub := InLeft(ctx, sub.n, sub.r), sub.l;
      } else {
        at := parent.right;
        ctx, sub := InRight(ctx, sub.l, sub.n), sub.r;
      }
    }
    pos := |Pre(ctx)|;
    HolePosition(ctx);
  }

  /** A pair that fits in the hole is not among the nodes. */
  lemma NotPresent(ctx: Ctx<ZNode>, p: Pair, k: Keys)
    requires Brackets(ctx, p, k)
    ensures forall x <- Pre(ctx) + Post(ctx) :: x in k && k[x] != p
  {
    forall x | x in Pre(ctx) + Post(ctx) ensures x in k && k[x] != p {
      assert x in Pre(ctx) || x in Post(ctx);
      CmpIsOrder(k[x], p, k[x]);
    }
  }

  /** Attach the new node where its search ended. */
  method InsertAt(node: ZNode, parent: ZNode?, fromLeft: bool, ghost ctx: Ctx<ZNode>, ghost t: Tree<ZNode>,
                  ghost all: set<ZNode>)
    returns (root: ZNode, ghost t': Tree<ZNode>)
    requires t == Plug(ctx, Nil) && Distinct(t) && Sorted(Order(t), KeysOf(all))
    requires all == Nodes(t) + {node} && node !in Nodes(t) && node.left == null && node.right == null
    requires Path(ctx, null, Mem(all)) && Brackets(ctx, node.Pair(), KeysOf(all))
    requires parent == Par(ctx) && (parent != null ==> fromLeft == ctx.InLeft?)
    modifies all`parent, all`left, all`right, all`height, all`cnt
    ensures IsTree(root, t', Mem(all)) && Sorted(Order(t'), KeysOf(all))
    ensures |Pre(ctx)| <= |Order(t)| && Order(t') == Order(t)[..|Pre(ctx)|] + [node] + Order(t)[|Pre(ctx)|..]
    ensures Balanced(t) ==> Balanced(t')
    ensures forall x <- Nodes(t) :: x.Pair() != node.Pair()
  {
    ghost var k := KeysOf(all);
    InsertFacts(t, ctx, node, k);
    t' := Rebuild(ctx, Bin(Nil, node, Nil));
    root := Attach(node, parent, fromLeft, ctx, all);
  }

  /** Insert by (score, name); a pair already present leaves the tree as it is. */
  method Insert(root0: ZNode?, node: ZNode, ghost t: Tree<ZNode>, ghost all: set<ZNode>)
    returns (root: ZNode?, ghost t': Tree<ZNode>, ghost pos: nat, ghost moves: nat)
    requires IsTree(root0, t, Mem(all)) && Sorted(Order(t), KeysOf(all)) && all == Nodes(t) + {node}
    requires node !in Nodes(t) && node.left == null && node.right == null
    modifies all`parent, all`left, all`right, all`height, all`cnt
    ensures IsTree(root, t', Mem(all)) && Sorted(Order(t'), KeysOf(all))
    ensures (exists x <- Nodes(t) :: x.Pair() == node.Pair()) ==>
            t' == t && pos < |Order(t)| && Order(t)[pos].Pair() == node.Pair() && moves == DepthAt(t, pos) + 1
    ensures (forall x <- Nodes(t) :: x.Pair() != node.Pair()) ==>
            && pos <= |Order(t)| && Order(t') == Order(t)[..pos] + [node] + Order(t)[pos..]
            && moves == HoleDepth(t, pos)
    ensures Balanced(t) ==> Balanced(t')
    ensures moves <= H(t)
  {
    ghost var ctx;
    var parent, fromLeft, dup;
    parent, fromLeft, dup, ctx, pos, moves := FindPlace(root0, node, t, all);
    if dup {
      NodesAreOrder(t);
      return root0, t, pos, moves;
    }
    root, t' := InsertAt(node, parent, fromLeft, ctx, t, all);
  }

  lemma InsertFacts(t: Tree<ZNode>, ctx: Ctx<ZNode>, node: ZNode, k: Keys)
    requires t == Plug(ctx, Nil) && Distinct(t) && node !in Nodes(t) && Sorted(Order(t), k)
    requires node in k && Brackets(ctx, k[node], k)
    ensures var t' := Rebuild(ctx, Bin(Nil, node, Nil));
            && Distinct(t') && Sorted(Order(t'), k)
            && (Balanced(t) ==> Balanced(t'))
            && |Pre(ctx)| <= |Order(t)|
            && Order(t') == Order(t)[..|Pre(ctx)|] + [node] + Order(t)[|Pre(ctx)|..]
    ensures forall x <- Nodes(t) :: x in k && k[x] != k[node]
    ensures CtxNodes(ctx) == Nodes(t) && CtxDistinct(ctx)
  {
    PlugNodes(ctx, Nil);
    PlugDistinct(ctx, Nil);
    NodesAreOrder(t);
    LeafOrder(ctx, node);
    LeafDistinct(ctx, node);
    if Balanced(t) { LeafBalances(ctx, node); }
    NotPresent(ctx, k[node], k);
    SortedJoin(Pre(ctx), node, Post(ctx), k);
  }

  // ----- moving about the tree -----

  /** The zipper at node t.n of a tree in memory. */
  ghost predicate Focused(ctx: Ctx<ZNode>, t: Tree<ZNode>, m: Memory) {
    AtHole(ctx, t, m) && Shape(t, Par(ctx), m) && Exact(ctx, H(t), C(t), m)
  }

  /** The counts that a node's links lead to. */
  lemma CountsHere(ctx: Ctx<ZNode>, t: Tree<ZNode>, m: Memory)
    requires Focused(ctx, t, m)
    ensures t.Bin? && t.n in m && t.n in Nodes(t)
    ensures CntIn(m[t.n].left, m) == C(t.l) && CntIn(m[t.n].right, m) == C(t.r)
    ensures m[t.n].left == Root(t.l) && m[t.n].right == Root(t.r) && m[t.n].parent == Par(ctx)
    ensures C(t) == C(t.l) + 1 + C(t.r) && H(t) > 0
    ensures t.l.Bin? ==> t.l.n in m
    ensures t.r.Bin? ==> t.r.n in m
  {
  }

  lemma MoveUp(ctx: Ctx<ZNode>, t: Tree<ZNode>, m: Memory)
    requires Focused(ctx, t, m) && !ctx.Top?
    ensures Focused(ctx.up, Above(ctx, t), m) && ctx.n in m
    ensures ctx.InLeft? ==> m[ctx.n].left == t.n && m[ctx.n].right != t.n && |Pre(ctx.up)| == |Pre(ctx)|
    ensures ctx.InRight? ==> m[ctx.n].left != t.n && m[ctx.n].right == t.n && |Pre(ctx.up)| + C(ctx.l) + 1 == |Pre(ctx)|
    ensures H(t) < H(Above(ctx, t)) <= H(Plug(ctx, t))
  {
    AboveDistinct(ctx, t);
    assert ctx.InLeft? && ctx.r.Bin? ==> ctx.r.n in Nodes(ctx.r);
    assert ctx.InRight? && ctx.l.Bin? ==> ctx.l.n in Nodes(ctx.l);
    PlugHeight(ctx.up, Above(ctx, t));
    if ctx.InRight? { CountIsLength(ctx.l); }
  }

  lemma MoveLeft(ctx: Ctx<ZNode>, t: Tree<ZNode>, m: Memory)
    requires Focused(ctx, t, m) && t.l.Bin?
    ensures Focused(InLeft(ctx, t.n, t.r), t.l, m)
    ensures |Pre(InLeft(ctx, t.n, t.r))| == |Pre(ctx)| && H(t.l) < H(t)
  {
  }

  lemma MoveRight(ctx: Ctx<ZNode>, t: Tree<ZNode>, m: Memory)
    requires Focused(ctx, t, m) && t.r.Bin?
    ensures Focused(InRight(ctx, t.l, t.n), t.r, m)
    ensures |Pre(InRight(ctx, t.l, t.n))| == |Pre(ctx)| + C(t.l) + 1 && H(t.r) < H(t)
  {
    CountIsLength(t.l);
  }

  lemma StartFocus(t: Tree<ZNode>, x: ZNode, m: Memory, pos: nat)
    requires Distinct(t) && Shape(t, null, m) && pos < |Order(t)| && Order(t)[pos] == x
    ensures x in Nodes(t) && Focused(Focus(t, x, Top), Sub(t, x), m)
    ensures Plug(Focus(t, x, Top), Sub(t, x)) == t
    ensures |Pre(Focus(t, x, Top))| + C(Sub(t, x).l) == pos
  {
    NodesAreOrder(t);
    FocusHole(t, x, m);
    FocusPlug(t, x, Top);
    RootPosition(Focus(t, x, Top), Sub(t, x));
    DistinctIsNoDup(t);
    PositionUnique(Order(t), pos, |Pre(Focus(t, x, Top))| + C(Sub(t, x).l));
  }

  /** The number of nodes before a node, counted by climbing. */
  method Rank(start: ZNode, ghost t: Tree<ZNode>, ghost all: set<ZNode>) returns (rank: nat, ghost moves: nat)
    requires IsTree(Root(t), t, Mem(all)) && start in Nodes(t) && Nodes(t) <= all
    ensures rank < |Order(t)| && Order(t)[rank] == start
    ensures moves == DepthAt(t, rank) < H(t)
  {
    hide H, C, Shape, Distinct, DepthAt;
    ghost var m, ctx, sub := Mem(all), Focus(t, start, Top), Sub(t, start);
    NodesAreOrder(t);
    ghost var pos :| 0 <= pos < |Order(t)| && Order(t)[pos] == start;
    StartFocus(t, start, m, pos);
    RankDepth(ctx, sub, pos);
    var node := start;
    ghost var depth := Depth(ctx);
    CountsHere(ctx, sub, m);
    rank, moves := Cnt(node.left), 0;
    while node.parent != null
      invariant Focused(ctx, sub, m) && node == sub.n && Plug(ctx, sub) == t
      invariant |Pre(ctx)| + rank == pos && moves + Depth(ctx) == depth
      decreases ctx
    {
      moves := moves + 1;
      var parent := node.parent;
      MoveUp(ctx, sub, m);
      CountsHere(ctx.up, Above(ctx, sub), m);
      if parent.right == node {
        rank := rank + Cnt(parent.left) + 1;
      }
      node := parent;
      ctx, sub := ctx.up, Above(ctx, sub);
    }
  }

  /** The node at position q, or null when q is out of range. */
  ghost function At(s: seq<ZNode>, q: int): ZNode? { if 0 <= q < |s| then s[q] else null }

  lemma {:induction false} Arrived(ctx: Ctx<ZNode>, sub: Tree<ZNode>, t: Tree<ZNode>, q: int)
    requires sub.Bin? && Plug(ctx, sub) == t && |Pre(ctx)| + C(sub.l) == q
    ensures At(Order(t), q) == sub.n
  {
    RootPosition(ctx, sub);
    FoundAt(Order(t), q, sub.n);
  }

  lemma FoundAt(s: seq<ZNode>, q: int, n: ZNode)
    requires 0 <= q < |s| && s[q] == n
    ensures At(s, q) == n
  {
  }

  /** Position q falls within the subtree in the hole. */
  predicate InRange(ctx: Ctx<ZNode>, t: Tree<ZNode>, q: int) {
    |Pre(ctx)| <= q < |Pre(ctx)| + C(t)
  }

  /**
   * The state of the walk in Offset: it stands at position at and looks for position q, and has come from
   * position pos.  Once it has gone down, q is below it, and turn is the depth of the highest node it has been at.
   */
  ghost predicate Walk(ctx: Ctx<ZNode>, sub: Tree<ZNode>, t: Tree<ZNode>, m: Memory, pos: nat, q: int, at: int,
                       down: bool, turn: nat) {
    && Focused(ctx, sub, m) && Plug(ctx, sub) == t && H(sub) <= H(t) && |Pre(ctx)| + C(sub.l) == at
    && (if down then InRange(ctx, sub, q) && turn == Meet(t, pos, q)
        else InRange(ctx, sub, pos) && turn == Depth(ctx) && (0 <= q < C(t) ==> Meet(t, pos, q) <= turn))
  }

  /** The target is below: this is where the paths to the two positions part. */
  lemma Turn(ctx: Ctx<ZNode>, sub: Tree<ZNode>, t: Tree<ZNode>, m: Memory, pos: nat, q: int, at: int, down: bool,
             turn: nat)
    requires Walk(ctx, sub, t, m, pos, q, at, down, turn) && InRange(ctx, sub, q)
    ensures turn == Meet(t, pos, q)
  {
    hide Focused;
    if !down {
      MeetPlug(ctx, sub, pos - |Pre(ctx)|, q - |Pre(ctx)|);
      RangeInside(ctx, sub, q);
    }
  }

  /** What is in range of a subtree is in range of the tree. */
  lemma RangeInside(ctx: Ctx<ZNode>, sub: Tree<ZNode>, q: int)
    requires InRange(ctx, sub, q)
    ensures 0 <= q < C(Plug(ctx, sub))
  {
    PlugOrder(ctx, sub);
    CountIsLength(sub);
    CountIsLength(Plug(ctx, sub));
  }

  lemma WalkRight(ctx: Ctx<ZNode>, sub: Tree<ZNode>, t: Tree<ZNode>, m: Memory, pos: nat, q: int, at: int, down: bool,
                  turn: nat)
    requires Walk(ctx, sub, t, m, pos, q, at, down, turn) && at < q <= at + C(sub.r)
    ensures sub.r.Bin? && sub.r.n in m && CntIn(m[sub.r.n].left, m) == C(sub.r.l) && H(sub.r) < H(sub)
    ensures m[sub.r.n].left != null ==> m[sub.r.n].left in m
    ensures Walk(InRight(ctx, sub.l, sub.n), sub.r, t, m, pos, q, at + C(sub.r.l) + 1, true, turn)
  {
    hide Meet, Focused, Shape, H;
    Turn(ctx, sub, t, m, pos, q, at, down, turn);
    MoveRight(ctx, sub, m);
    CountsHere(InRight(ctx, sub.l, sub.n), sub.r, m);
  }

  lemma WalkLeft(ctx: Ctx<ZNode>, sub: Tree<ZNode>, t: Tree<ZNode>, m: Memory, pos: nat, q: int, at: int, down: bool,
                 turn: nat)
    requires Walk(ctx, sub, t, m, pos, q, at, down, turn) && at - C(sub.l) <= q < at
    ensures sub.l.Bin? && sub.l.n in m && CntIn(m[sub.l.n].right, m) == C(sub.l.r) && H(sub.l) < H(sub)
    ensures m[sub.l.n].right != null ==> m[sub.l.n].right in m
    ensures Walk(InLeft(ctx, sub.n, sub.r), sub.l, t, m, pos, q, at - (C(sub.l.r) + 1), true, turn)
  {
    hide Meet, Focused, Shape, H;
    Turn(ctx, sub, t, m, pos, q, at, down, turn);
    MoveLeft(ctx, sub, m);
    CountsHere(InLeft(ctx, sub.n, sub.r), sub.l, m);
  }

  /** The target is elsewhere: the paths part above. */
  lemma NoTurn(ctx: Ctx<ZNode>, sub: Tree<ZNode>, pos: nat, q: int)
    requires InRange(ctx, sub, pos) && !InRange(ctx, sub, q)
    ensures 0 <= q < C(Plug(ctx, sub)) ==> !ctx.Top? && Meet(Plug(ctx, sub), pos, q) <= Depth(ctx) - 1
  {
    if 0 <= q < C(Plug(ctx, sub)) { MeetAbove(ctx, sub, pos - |Pre(ctx)|, q); }
  }

  lemma WalkUp(ctx: Ctx<ZNode>, sub: Tree<ZNode>, t: Tree<ZNode>, m: Memory, pos: nat, q: int, at: int, down: bool,
               turn: nat)
    requires Walk(ctx, sub, t, m, pos, q, at, down, turn) && (q > at + C(sub.r) || q < at - C(sub.l))
    ensures !down && (ctx.Top? ==> At(Order(t), q) == null)
    ensures !ctx.Top? ==> ctx.n in m && (m[ctx.n].right == sub.n <==> ctx.InRight?)
    ensures !ctx.Top? ==>
      var at' := if ctx.InRight? then at - (C(sub.l) + 1) else at + C(sub.r) + 1;
      turn > 0 && Walk(ctx.up, Above(ctx, sub), t, m, pos, q, at', false, turn - 1)
  {
    hide Meet, Focused, Shape, H;
    if ctx.Top? {
      CountIsLength(t);
    } else {
      NoTurn(ctx, sub, pos, q);
      MoveUp(ctx, sub, m);
    }
  }

  lemma WalkStart(t: Tree<ZNode>, start: ZNode, m: Memory, pos: nat, q: int)
    requires Distinct(t) && Shape(t, null, m) && pos < |Order(t)| && Order(t)[pos] == start
    ensures start in Nodes(t)
    ensures var ctx, sub := Focus(t, start, Top), Sub(t, start);
            && Walk(ctx, sub, t, m, pos, q, pos, false, Depth(ctx))
            && Depth(ctx) == DepthAt(t, pos) < H(t)
  {
    hide Meet, DepthAt;
    StartFocus(t, start, m, pos);
    var ctx, sub := Focus(t, start, Top), Sub(t, start);
    RankDepth(ctx, sub, pos);
    PlugHeight(ctx, sub);
    if InRange(ctx, sub, q) { StartMeets(ctx, sub, pos, q); } else { NoTurn(ctx, sub, pos, q); }
  }

  lemma StartMeets(ctx: Ctx<ZNode>, sub: Tree<ZNode>, pos: nat, q: int)
    requires sub.Bin? && pos == |Pre(ctx)| + C(sub.l) && InRange(ctx, sub, q)
    ensures Meet(Plug(ctx, sub), pos, q) == Depth(ctx)
  {
    MeetPlug(ctx, sub, C(sub.l), q - |Pre(ctx)|);
  }

  lemma WalkIsFocused(ctx: Ctx<ZNode>, sub: Tree<ZNode>, t: Tree<ZNode>, m: Memory, pos: nat, q: int, at: int,
                      down: bool, turn: nat)
    requires Walk(ctx, sub, t, m, pos, q, at, down, turn)
    ensures Focused(ctx, sub, m) && Plug(ctx, sub) == t && |Pre(ctx)| + C(sub.l) == at
    ensures !down ==> turn == Depth(ctx)
  {
  }

  /** One move of the walk, towards the place where the rank difference is offset; null when there is none. */
  method Move(node: ZNode, rankDiff: int, offset: int, ghost ctx: Ctx<ZNode>, ghost sub: Tree<ZNode>,
              ghost t: Tree<ZNode>, ghost all: set<ZNode>, ghost pos: nat, ghost down: bool, ghost turn: nat)
    returns (node': ZNode?, rankDiff': int, ghost ctx': Ctx<ZNode>, ghost sub': Tree<ZNode>, ghost down': bool,
             ghost turn': nat)
    requires Walk(ctx, sub, t, Mem(all), pos, pos + offset, pos + rankDiff, down, turn)
    requires Nodes(sub) + CtxNodes(ctx) <= all && node == sub.n && rankDiff != offset
    ensures node' == null ==> At(Order(t), pos + offset) == null && !down && ctx.Top?
    ensures node' != null ==>
      Walk(ctx', sub', t, Mem(all), pos, pos + offset, pos + rankDiff', down', turn') && sub'.Bin? && node' == sub'.n
    ensures node' != null ==>
      if down' then Depth(ctx') == Depth(ctx) + 1 && turn' == turn && H(sub') < H(sub)
      else !down && Depth(ctx') == Depth(ctx) - 1 && turn' == turn - 1
    ensures down && node' != null ==> down'
  {
    hide Meet, Walk, H, Focused, Shape, C, Order, Nodes, CtxNodes;
    ghost var m, q, at := Mem(all), pos + offset, pos + rankDiff;
    WalkIsFocused(ctx, sub, t, m, pos, q, at, down, turn);
    CountsHere(ctx, sub, m);
    var r, l := Cnt(node.right), Cnt(node.left);
    if rankDiff < offset && rankDiff + r >= offset {
      WalkRight(ctx, sub, t, m, pos, q, at, down, turn);
      node' := node.right;
      rankDiff' := rankDiff + (Cnt(node'.left) + 1);
      ctx', sub', down', turn' := InRight(ctx, sub.l, sub.n), sub.r, true, turn;
    } else if rankDiff > offset && rankDiff - l <= offset {
      WalkLeft(ctx, sub, t, m, pos, q, at, down, turn);
      node' := node.left;
      rankDiff' := rankDiff - (Cnt(node'.right) + 1);
      ctx', sub', down', turn' := InLeft(ctx, sub.n, sub.r), sub.l, true, turn;
    } else {
      WalkUp(ctx, sub, t, m, pos, q, at, down, turn);
      node', rankDiff', ctx', sub', down', turn' := node.parent, rankDiff, ctx, sub, false, turn;
      if node' != null {
        rankDiff' := if node'.right == node then rankDiff - (l + 1) else rankDiff + r + 1;
        ctx', sub', turn' := ctx.up, Above(ctx, sub), turn - 1;
      }
    }
  }

  /**
   * The node offset places after start, or null when there is none.  The walk climbs until the
   * target lies below it, then only descends: it takes the path between the two nodes, or, when there is no
   * target, that to the root.
   */
  method Offset(start: ZNode, offset: int, ghost t: Tree<ZNode>, ghost all: set<ZNode>, ghost pos: nat)
    returns (r: ZNode?, ghost moves: nat)
    requires IsTree(Root(t), t, Mem(all)) && Nodes(t) <= all
    requires pos < |Order(t)| && Order(t)[pos] == start
    ensures r == At(Order(t), pos + offset)
    ensures r == null ==> moves == DepthAt(t, pos)
    ensures r != null ==> pos + offset >= 0 && moves == Distance(t, pos, pos + offset)
    ensures moves <= 2 * H(t)
  {
    hide Meet, DepthAt, Walk, H, Shape, Distinct;
    ghost var m, q := Mem(all), pos + offset;
    WalkStart(t, start, m, pos, q);
    ghost var ctx, sub, down := Focus(t, start, Top), Sub(t, start), false;
    ghost var depth: nat, turn: nat := Depth(ctx), Depth(ctx);
    var rankDiff := 0;
    r, moves := start, 0;
    while rankDiff != offset
      invariant sub.Bin? && r == sub.n && turn <= depth
      invariant Walk(ctx, sub, t, m, pos, q, pos + rankDiff, down, turn) && moves + 2 * turn == depth + Depth(ctx)
      decreases if down then 0 else Depth(ctx) + 1, H(sub)
    {
      WalkIsFocused(ctx, sub, t, m, pos, q, pos + rankDiff, down, turn);
      PlugNodes(ctx, sub);
      r, rankDiff, ctx, sub, down, turn := Move(r, rankDiff, offset, ctx, sub, t, all, pos, down, turn);
      if r == null {
        return null, moves;
      }
      moves := moves + 1;
    }
    WalkEnd(ctx, sub, t, m, pos, q, down, turn);
  }

  /** The walk has arrived. */
  lemma WalkEnd(ctx: Ctx<ZNode>, sub: Tree<ZNode>, t: Tree<ZNode>, m: Memory, pos: nat, q: int, down: bool, turn: nat)
    requires Walk(ctx, sub, t, m, pos, q, q, down, turn) && sub.Bin?
    ensures At(Order(t), q) == sub.n && q >= 0 && turn == Meet(t, pos, q) && Depth(ctx) == DepthAt(t, q) < H(t)
  {
    hide Meet, DepthAt, Focused;
    Arrived(ctx, sub, t, q);
    Turn(ctx, sub, t, m, pos, q, q, down, turn);
    RankDepth(ctx, sub, q);
  }

  // ----- seeking -----

  /** Position i is the lower bound of p: everything before it is less, nothing from it on is. */
  ghost predicate LowerBound(s: seq<ZNode>, p: Pair, k: Keys, i: nat) {
    && i <= |s| && Elems(s) <= k.Keys
    && (forall j :: 0 <= j < i ==> Less(k[s[j]], p))
    && (forall j :: i <= j < |s| ==> !Less(k[s[j]], p))
  }

  /** While seeking: all nodes before the hole are less than p, none after it is. */
  ghost predicate Seeking(ctx: Ctx<ZNode>, p: Pair, k: Keys) {
    && (forall y <- Pre(ctx) :: y in k && Less(k[y], p))
    && (forall y <- Post(ctx) :: y in k && !Less(k[y], p))
  }

  lemma SeekNarrow(ctx: Ctx<ZNode>, t: Tree<ZNode>, p: Pair, k: Keys)
    requires t.Bin? && Sorted(Order(Plug(ctx, t)), k) && Seeking(ctx, p, k)
    ensures t.n in k
    ensures Less(k[t.n], p) ==> Seeking(InRight(ctx, t.l, t.n), p, k)
    ensures !Less(k[t.n], p) ==> Seeking(InLeft(ctx, t.n, t.r), p, k)
  {
    PlugOrder(ctx, t);
    var a, b := Pre(ctx) + Order(t.l), Order(t.r) + Post(ctx);
    Regroup(Pre(ctx), Order(t.l), t.n, Order(t.r), Post(ctx));
    SortedSplit(a, t.n, b, k);
    forall y | y in Order(t.l) && Less(k[t.n], p) ensures y in k && Less(k[y], p) {
      assert y in a;
      CmpIsOrder(k[y], k[t.n], p);
    }
    forall y | y in Order(t.r) && !Less(k[t.n], p) ensures y in k && !Less(k[y], p) {
      assert y in b;
      CmpIsOrder(k[t.n], k[y], p);
    }
  }

  lemma SeekEnd(ctx: Ctx<ZNode>, p: Pair, k: Keys)
    requires Seeking(ctx, p, k)
    ensures LowerBound(Order(Plug(ctx, Nil)), p, k, |Pre(ctx)|)
  {
    PlugOrder(ctx, Nil);
    var s := Order(Plug(ctx, Nil));
    assert s == Pre(ctx) + Post(ctx);
    forall y | y in s ensures y in k.Keys { assert y in Pre(ctx) || y in Post(ctx); }
    forall j | |Pre(ctx)| <= j < |s| ensures !Less(k[s[j]], p) { assert s[j] == Post(ctx)[j - |Pre(ctx)|]; }
  }

  /** The first node that is not less than p, found in at most height-many steps. */
  method SeekGe(root: ZNode?, p: Pair, ghost t: Tree<ZNode>, ghost all: set<ZNode>)
    returns (found: ZNode?, ghost pos: nat, ghost moves: nat)
    requires IsTree(root, t, Mem(all)) && Nodes(t) <= all && Sorted(Order(t), KeysOf(all))
    ensures LowerBound(Order(t), p, KeysOf(all), pos) && found == At(Order(t), pos)
    ensures moves == HoleDepth(t, pos) <= H(t)
  {
    found, moves := null, 0;
    var node := root;
    ghost var ctx, sub, m, k := Top, t, Mem(all), KeysOf(all);
    while node != null
      invariant node == Root(sub) && Shape(sub, Par(ctx), m) && Nodes(sub) <= all
      invariant Plug(ctx, sub) == t && Seeking(ctx, p, k)
      invariant found == At(Post(ctx), 0) && moves == Depth(ctx)
      decreases sub
    {
      SeekNarrow(ctx, sub, p, k);
      if Cmp(node.Pair(), p) < 0 {
        node := node.right;
        ctx, sub := InRight(ctx, sub.l, sub.n), sub.r;
      } else {
        found := node;
        node := node.left;
        ctx, sub := InLeft(ctx, sub.n, sub.r), sub.l;
      }
      moves := moves + 1;
    }
    pos := |Pre(ctx)|;
    SeekEnd(ctx, p, k);
    PlugOrder(ctx, Nil);
    HolePosition(ctx);
  }
}
