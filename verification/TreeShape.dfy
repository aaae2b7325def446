/**
 * Binary trees as values: the shape that a linked AVL tree takes in memory.
 * Rotation and rebalancing are functions here; module Avl shows that the pointer
 * code computes them.  The element type is left open.
 */
module TreeShape {
  import opened Seqs

  datatype Tree<T> = Nil | Bin(l: Tree<T>, n: T, r: Tree<T>)

  /** A tree with a hole, read from the hole up to the root. */
  datatype Ctx<T> =
    | Top
    | InLeft(up: Ctx<T>, n: T, r: Tree<T>)
    | InRight(up: Ctx<T>, l: Tree<T>, n: T)

  function Max(a: nat, b: nat): nat { if a < b then b else a }

  function H(t: Tree): nat { if t.Nil? then 0 else 1 + Max(H(t.l), H(t.r)) }

  function C(t: Tree): nat { if t.Nil? then 0 else 1 + C(t.l) + C(t.r) }

  function Order<T>(t: Tree<T>): seq<T> {
    if t.Nil? then [] else Order(t.l) + [t.n] + Order(t.r)
  }

  ghost function Nodes<T>(t: Tree<T>): set<T> {
    if t.Nil? then {} else Nodes(t.l) + {t.n} + Nodes(t.r)
  }

  ghost predicate Distinct<T>(t: Tree<T>) {
    t.Bin? ==>
      && t.n !in Nodes(t.l) && t.n !in Nodes(t.r) && Nodes(t.l) !! Nodes(t.r)
      && Distinct(t.l) && Distinct(t.r)
  }

  predicate Near(a: nat, b: nat) { a <= b + 1 && b <= a + 1 }

  predicate Balanced(t: Tree) {
    t.Bin? ==> Near(H(t.l), H(t.r)) && Balanced(t.l) && Balanced(t.r)
  }

  // ----- contexts -----

  /** The tree one level up: t together with the context's innermost node. */
  function Above<T>(ctx: Ctx<T>, t: Tree<T>): Tree<T>
    requires !ctx.Top?
  {
    if ctx.InLeft? then Bin(t, ctx.n, ctx.r) else Bin(ctx.l, ctx.n, t)
  }

  function Plug<T>(ctx: Ctx<T>, t: Tree<T>): Tree<T> {
    if ctx.Top? then t else Plug(ctx.up, Above(ctx, t))
  }

  function Pre<T>(ctx: Ctx<T>): seq<T> {
    match ctx
    case Top => []
    case InLeft(up, n, r) => Pre(up)
    case InRight(up, l, n) => Pre(up) + Order(l) + [n]
  }

  function Post<T>(ctx: Ctx<T>): seq<T> {
    match ctx
    case Top => []
    case InLeft(up, n, r) => [n] + Order(r) + Post(up)
    case InRight(up, l, n) => Post(up)
  }

  function Depth(ctx: Ctx): nat { if ctx.Top? then 0 else 1 + Depth(ctx.up) }

  ghost function CtxNodes<T>(ctx: Ctx<T>): set<T> {
    match ctx
    case Top => {}
    case InLeft(up, n, r) => CtxNodes(up) + {n} + Nodes(r)
    case InRight(up, l, n) => CtxNodes(up) + {n} + Nodes(l)
  }

  ghost predicate CtxDistinct<T>(ctx: Ctx<T>) {
    match ctx
    case Top => true
    case InLeft(up, n, r) =>
      n !in CtxNodes(up) && n !in Nodes(r) && Nodes(r) !! CtxNodes(up) && Distinct(r) && CtxDistinct(up)
    case InRight(up, l, n) =>
      n !in CtxNodes(up) && n !in Nodes(l) && Nodes(l) !! CtxNodes(up) && Distinct(l) && CtxDistinct(up)
  }

  /** The context is balanced when its hole is filled by a tree of height h. */
  predicate CtxBalanced(ctx: Ctx, h: nat) {
    match ctx
    case Top => true
    case InLeft(up, n, r) => Balanced(r) && Near(h, H(r)) && CtxBalanced(up, 1 + Max(h, H(r)))
    case InRight(up, l, n) => Balanced(l) && Near(H(l), h) && CtxBalanced(up, 1 + Max(H(l), h))
  }

  /** The context around node x of t, when t itself sits in context up. */
  ghost function Focus<T>(t: Tree<T>, x: T, up: Ctx<T>): Ctx<T>
    requires x in Nodes(t)
  {
    if t.n == x then up
    else if x in Nodes(t.l) then Focus(t.l, x, InLeft(up, t.n, t.r))
    else Focus(t.r, x, InRight(up, t.l, t.n))
  }

  /** The subtree of t rooted at x. */
  ghost function Sub<T>(t: Tree<T>, x: T): (s: Tree<T>)
    requires x in Nodes(t)
    ensures s.Bin? && s.n == x
  {
    if t.n == x then t else if x in Nodes(t.l) then Sub(t.l, x) else Sub(t.r, x)
  }

  // ----- rotations and rebalancing -----

  function RotLeft<T>(t: Tree<T>): Tree<T>
    requires t.Bin? && t.r.Bin?
  {
    Bin(Bin(t.l, t.n, t.r.l), t.r.n, t.r.r)
  }

  function RotRight<T>(t: Tree<T>): Tree<T>
    requires t.Bin? && t.l.Bin?
  {
    Bin(t.l.l, t.l.n, Bin(t.l.r, t.n, t.r))
  }

  function FixedLeft<T>(t: Tree<T>): Tree<T>
    requires t.Bin? && H(t.l) == H(t.r) + 2
  {
    if H(t.l.l) < H(t.l.r) then RotRight(Bin(RotLeft(t.l), t.n, t.r)) else RotRight(t)
  }

  function FixedRight<T>(t: Tree<T>): Tree<T>
    requires t.Bin? && H(t.r) == H(t.l) + 2
  {
    if H(t.r.r) < H(t.r.l) then RotLeft(Bin(t.l, t.n, RotRight(t.r))) else RotLeft(t)
  }

  function FixedNode<T>(t: Tree<T>): Tree<T>
    requires t.Bin?
  {
    if H(t.l) == H(t.r) + 2 then FixedLeft(t)
    else if H(t.r) == H(t.l) + 2 then FixedRight(t)
    else t
  }

  /** Fill the hole with t and rebalance every node from the hole up to the root. */
  function Rebuild<T>(ctx: Ctx<T>, t: Tree<T>): Tree<T> {
    if ctx.Top? then t else Rebuild(ctx.up, FixedNode(Above(ctx, t)))
  }

  // ----- lemmas: order and nodes -----

  lemma {:induction false} CountIsLength<T>(t: Tree<T>)
    ensures C(t) == |Order(t)|
  {
    if t.Bin? { CountIsLength(t.l); CountIsLength(t.r); }
  }

  lemma {:induction false} NodesAreOrder<T>(t: Tree<T>)
    ensures Nodes(t) == Elems(Order(t))
  {
    if t.Bin? { NodesAreOrder(t.l); NodesAreOrder(t.r); }
  }

  lemma {:induction false} DistinctIsNoDup<T>(t: Tree<T>)
    ensures Distinct(t) <==> NoDup(Order(t))
  {
    if t.Bin? {
      DistinctIsNoDup(t.l); DistinctIsNoDup(t.r);
      NodesAreOrder(t.l); NodesAreOrder(t.r);
      NoDupConcat(Order(t.l), t.n, Order(t.r));
    }
  }

  /** A tree without repetitions has as many nodes as its count says. */
  lemma CountIsSize<T>(t: Tree<T>)
    requires Distinct(t)
    ensures |Nodes(t)| == C(t)
  {
    CountIsLength(t);
    DistinctIsNoDup(t);
    NodesAreOrder(t);
    NoDupCount(Order(t));
  }

  lemma {:induction false} PlugOrder<T>(ctx: Ctx<T>, t: Tree<T>)
    ensures Order(Plug(ctx, t)) == Pre(ctx) + Order(t) + Post(ctx)
  {
    match ctx
    case Top =>
      assert [] + Order(t) + [] == Order(t);
    case InLeft(up, n, r) =>
      PlugOrder(up, Above(ctx, t));
      Unpack(Pre(up), Order(t), n, Order(r), Post(up));
    case InRight(up, l, n) =>
      PlugOrder(up, Above(ctx, t));
      Unpack(Pre(up), Order(l), n, Order(t), Post(up));
  }

  lemma {:induction false} PlugNodes<T>(ctx: Ctx<T>, t: Tree<T>)
    ensures Nodes(Plug(ctx, t)) == CtxNodes(ctx) + Nodes(t)
  {
    if !ctx.Top? { PlugNodes(ctx.up, Above(ctx, t)); }
  }

  lemma {:induction false} PlugDistinct<T>(ctx: Ctx<T>, t: Tree<T>)
    ensures Distinct(Plug(ctx, t)) <==> CtxDistinct(ctx) && Distinct(t) && CtxNodes(ctx) !! Nodes(t)
  {
    if !ctx.Top? { PlugDistinct(ctx.up, Above(ctx, t)); }
  }

  lemma AboveDistinct<T>(ctx: Ctx<T>, t: Tree<T>)
    requires !ctx.Top? && CtxDistinct(ctx) && Distinct(t) && CtxNodes(ctx) !! Nodes(t)
    ensures Distinct(Above(ctx, t)) && CtxDistinct(ctx.up) && CtxNodes(ctx.up) !! Nodes(Above(ctx, t))
    ensures CtxNodes(ctx.up) + Nodes(Above(ctx, t)) == CtxNodes(ctx) + Nodes(t)
  {
  }

  lemma {:induction false} PlugBalanced<T>(ctx: Ctx<T>, t: Tree<T>)
    ensures Balanced(Plug(ctx, t)) <==> Balanced(t) && CtxBalanced(ctx, H(t))
  {
    if !ctx.Top? {
      hide Balanced, CtxBalanced, H;
      PlugBalanced(ctx.up, Above(ctx, t));
      AboveBalanced(ctx, t);
    }
  }

  lemma AboveBalanced<T>(ctx: Ctx<T>, t: Tree<T>)
    requires !ctx.Top?
    ensures Balanced(Above(ctx, t)) && CtxBalanced(ctx.up, H(Above(ctx, t))) <==>
            Balanced(t) && CtxBalanced(ctx, H(t))
  {
  }

  lemma {:induction false} FocusPlug<T>(t: Tree<T>, x: T, up: Ctx<T>)
    requires x in Nodes(t)
    ensures Plug(Focus(t, x, up), Sub(t, x)) == Plug(up, t)
  {
    if t.n == x {
    } else if x in Nodes(t.l) {
      FocusPlug(t.l, x, InLeft(up, t.n, t.r));
    } else {
      FocusPlug(t.r, x, InRight(up, t.l, t.n));
    }
  }

  /** Trees with the same order hold the same nodes, and one is duplicate-free when the other is. */
  lemma SameOrder<T>(t: Tree<T>, u: Tree<T>)
    requires Order(t) == Order(u)
    ensures Nodes(t) == Nodes(u) && C(t) == C(u)
    ensures Distinct(t) <==> Distinct(u)
  {
    NodesAreOrder(t); NodesAreOrder(u);
    DistinctIsNoDup(t); DistinctIsNoDup(u);
    CountIsLength(t); CountIsLength(u);
  }

  lemma RotLeftKeepsOrder<T>(t: Tree<T>)
    requires t.Bin? && t.r.Bin?
    ensures Order(RotLeft(t)) == Order(t)
  {
    Shift(Order(t.l), t.n, Order(t.r.l), t.r.n, Order(t.r.r));
  }

  lemma RotRightKeepsOrder<T>(t: Tree<T>)
    requires t.Bin? && t.l.Bin?
    ensures Order(RotRight(t)) == Order(t)
  {
    Shift(Order(t.l.l), t.l.n, Order(t.l.r), t.n, Order(t.r));
  }

  lemma {:induction false} RotationsKeepNodes<T>(t: Tree<T>)
    requires t.Bin?
    ensures t.r.Bin? ==> Nodes(RotLeft(t)) == Nodes(t) && (Distinct(RotLeft(t)) <==> Distinct(t))
    ensures t.l.Bin? ==> Nodes(RotRight(t)) == Nodes(t) && (Distinct(RotRight(t)) <==> Distinct(t))
  {
  }

  lemma {:induction false} FixedNodeKeepsOrder<T>(t: Tree<T>)
    requires t.Bin?
    ensures Order(FixedNode(t)) == Order(t)
  {
    if H(t.l) == H(t.r) + 2 {
      if H(t.l.l) < H(t.l.r) {
        RotLeftKeepsOrder(t.l);
        RotRightKeepsOrder(Bin(RotLeft(t.l), t.n, t.r));
      } else {
        RotRightKeepsOrder(t);
      }
    } else if H(t.r) == H(t.l) + 2 {
      if H(t.r.r) < H(t.r.l) {
        RotRightKeepsOrder(t.r);
        RotLeftKeepsOrder(Bin(t.l, t.n, RotRight(t.r)));
      } else {
        RotLeftKeepsOrder(t);
      }
    }
  }

  /** Rebalancing up to the root changes the shape but not the sequence of nodes. */
  lemma {:induction false} RebuildKeepsOrder<T>(ctx: Ctx<T>, t: Tree<T>)
    ensures Order(Rebuild(ctx, t)) == Order(Plug(ctx, t))
    decreases ctx
  {
    if !ctx.Top? {
      var u := Above(ctx, t);
      FixedNodeKeepsOrder(u);
      RebuildKeepsOrder(ctx.up, FixedNode(u));
      PlugOrder(ctx.up, u);
      PlugOrder(ctx.up, FixedNode(u));
    }
  }

  // ----- lemmas: balance -----

  /**
   * What a node looks like when the walk of avl_fix reaches it: its children are balanced,
   * and one of them has gained or lost at most one level since the subtree had height h0.
   */
  predicate Disturbed(t: Tree, h0: nat) {
    && t.Bin? && Balanced(t.l) && Balanced(t.r)
    && var lo, hi := if H(t.l) < H(t.r) then H(t.l) else H(t.r), Max(H(t.l), H(t.r));
    && hi <= lo + 2
    && (hi <= lo + 1 ==> Near(1 + hi, h0))
    && (hi == lo + 2 ==> h0 == hi || h0 == hi + 1)
  }

  lemma FixedLeftBalances<T>(t: Tree<T>)
    requires t.Bin? && Balanced(t.l) && Balanced(t.r) && H(t.l) == H(t.r) + 2
    ensures Balanced(FixedLeft(t))
    ensures H(t.l) <= H(FixedLeft(t)) <= H(t.l) + 1
  {
  }

  lemma FixedRightBalances<T>(t: Tree<T>)
    requires t.Bin? && Balanced(t.l) && Balanced(t.r) && H(t.r) == H(t.l) + 2
    ensures Balanced(FixedRight(t))
    ensures H(t.r) <= H(FixedRight(t)) <= H(t.r) + 1
  {
  }

  /** One repaired node: the subtree is balanced and its height is within one of what it was. */
  lemma FixedNodeBalances<T>(t: Tree<T>, h0: nat)
    requires Disturbed(t, h0)
    ensures Balanced(FixedNode(t))
    ensures Near(H(FixedNode(t)), h0)
  {
    if H(t.l) == H(t.r) + 2 {
      FixedLeftBalances(t);
    } else if H(t.r) == H(t.l) + 2 {
      FixedRightBalances(t);
    }
  }

  /** One step up: a repaired subtree whose height moved by at most one disturbs its parent no further. */
  lemma StepUp<T>(ctx: Ctx<T>, t: Tree<T>, h0: nat) returns (h: nat)
    requires !ctx.Top? && Balanced(t) && Near(H(t), h0) && CtxBalanced(ctx, h0)
    ensures Disturbed(Above(ctx, t), h) && CtxBalanced(ctx.up, h)
  {
    hide H, Balanced;
    var b := H(if ctx.InLeft? then ctx.r else ctx.l);
    h := 1 + Max(h0, b);
    NearStep(H(t), b, h0);
  }

  lemma NearStep(a: nat, b: nat, h0: nat)
    requires Near(a, h0) && Near(h0, b)
    ensures var lo, hi, h := if a < b then a else b, Max(a, b), 1 + Max(h0, b);
            hi <= lo + 2 && (hi <= lo + 1 ==> Near(1 + hi, h)) && (hi == lo + 2 ==> h == hi || h == hi + 1)
  {
  }

  lemma {:induction false} RebuildBalances<T>(ctx: Ctx<T>, t: Tree<T>, h0: nat)
    requires Balanced(t) && Near(H(t), h0) && CtxBalanced(ctx, h0)
    ensures Balanced(Rebuild(ctx, t))
    decreases ctx
  {
    if !ctx.Top? {
      var h := StepUp(ctx, t, h0);
      FixedNodeBalances(Above(ctx, t), h);
      RebuildBalances(ctx.up, FixedNode(Above(ctx, t)), h);
    }
  }

  // ----- size against height -----

  function Fib(n: nat): nat { if n < 2 then n else Fib(n - 1) + Fib(n - 2) }

  lemma {:induction false} FibMonotone(a: nat, b: nat)
    requires a <= b
    ensures Fib(a) <= Fib(b)
    decreases b
  {
    if a < b {
      FibMonotone(a, b - 1);
      assert b >= 2 ==> Fib(b) == Fib(b - 1) + Fib(b - 2);
    }
  }

  /** The next Fibonacci number, for two heights that differ by one at most. */
  lemma FibBoth(a: nat, b: nat)
    requires a <= b + 1 && b <= a + 1
    ensures Fib(Max(a, b) + 3) <= Fib(a + 2) + Fib(b + 2)
  {
    hide Fib;
    FibNext(Max(a, b) + 1);
    FibMonotone(Max(a, b) + 1, (if a < b then a else b) + 2);
  }

  lemma FibNext(n: nat)
    ensures Fib(n + 2) == Fib(n + 1) + Fib(n)
  {
  }

  /** A balanced tree of height h has at least Fib(h + 2) - 1 nodes. */
  lemma {:induction false} BalancedIsBig<T>(t: Tree<T>)
    requires Balanced(t)
    ensures C(t) + 1 >= Fib(H(t) + 2)
  {
    if t.Bin? {
      hide Fib;
      BalancedIsBig(t.l);
      BalancedIsBig(t.r);
      FibBoth(H(t.l), H(t.r));
    }
  }

  /** Few enough steps for n nodes: at most logarithmically many, as Fib grows exponentially. */
  predicate Logarithmic(steps: nat, n: nat) { Fib(steps + 2) <= n + 1 }

  lemma NoSteps(n: nat)
    ensures Logarithmic(0, n)
  {
  }

  /** At most height-many steps in a balanced tree are logarithmic in its nodes. */
  lemma HeightIsLogarithmic<T>(t: Tree<T>, steps: nat)
    requires Balanced(t) && steps <= H(t)
    ensures Logarithmic(steps, C(t))
  {
    BalancedIsBig(t);
    FibMonotone(steps + 2, H(t) + 2);
  }

  function Pow2(n: nat): nat { if n == 0 then 1 else 2 * Pow2(n - 1) }

  /** Two more steps take twice the nodes. */
  lemma LogarithmicMeansLog(steps: nat, n: nat)
    requires Logarithmic(steps, n)
    ensures Pow2(steps / 2) <= n + 1
  {
    FibDoubles(steps);
  }

  lemma {:induction false} FibDoubles(k: nat)
    ensures Pow2(k / 2) <= Fib(k + 2)
  {
    if k >= 2 {
      FibDoubles(k - 2);
      FibMonotone(k, k + 1);
      assert Fib(k + 2) == Fib(k + 1) + Fib(k);
    }
  }

  // ----- removal -----

  /** The context of the leftmost node of t, and the subtree found there. */
  function MinCtx<T>(t: Tree<T>, up: Ctx<T>): Ctx<T>
    requires t.Bin?
  {
    if t.l.Nil? then up else MinCtx(t.l, InLeft(up, t.n, t.r))
  }

  function MinSub<T>(t: Tree<T>): (s: Tree<T>)
    requires t.Bin?
    ensures s.Bin? && s.l.Nil?
  {
    if t.l.Nil? then t else MinSub(t.l)
  }

  lemma {:induction false} MinPlug<T>(t: Tree<T>, up: Ctx<T>)
    requires t.Bin?
    ensures Plug(MinCtx(t, up), MinSub(t)) == Plug(up, t)
    ensures Pre(MinCtx(t, up)) == Pre(up)
  {
    if t.l.Bin? { MinPlug(t.l, InLeft(up, t.n, t.r)); }
  }

  /** Put s where x stands. */
  ghost function Replace<T>(t: Tree<T>, x: T, s: T): Tree<T>
    requires x in Nodes(t)
  {
    Plug(Focus(t, x, Top), Bin(Sub(t, x).l, s, Sub(t, x).r))
  }

  /** The tree after a node with at most one child is cut out of the hole of ctx. */
  function DeleteEasy<T>(ctx: Ctx<T>, t: Tree<T>): Tree<T>
    requires t.Bin? && (t.l.Nil? || t.r.Nil?)
  {
    Rebuild(ctx, if t.l.Bin? then t.l else t.r)
  }

  /** The tree with the leftmost node of t.r cut out, where t sits in context ctx. */
  ghost function CutSuccessor<T>(ctx: Ctx<T>, t: Tree<T>): Tree<T>
    requires t.Bin? && t.r.Bin?
  {
    DeleteEasy(MinCtx(t.r, InRight(ctx, t.l, t.n)), MinSub(t.r))
  }

  /** The tree after the node t.n is removed: its successor is cut out and takes its place. */
  ghost function Delete<T>(ctx: Ctx<T>, t: Tree<T>): Tree<T>
    requires t.Bin?
  {
    if t.l.Nil? || t.r.Nil? then DeleteEasy(ctx, t)
    else
      DeleteKeepsOthers(ctx, t);
      Replace(CutSuccessor(ctx, t), t.n, MinSub(t.r).n)
  }

  /** The tree after node x is removed. */
  ghost function Removed<T>(t: Tree<T>, x: T): Tree<T> {
    if x in Nodes(t) && Sub(t, x).Bin? then Delete(Focus(t, x, Top), Sub(t, x)) else t
  }

  lemma DeleteEasyOrder<T>(ctx: Ctx<T>, t: Tree<T>)
    requires t.Bin? && (t.l.Nil? || t.r.Nil?)
    ensures Order(DeleteEasy(ctx, t)) == Pre(ctx) + Order(t.l) + Order(t.r) + Post(ctx)
  {
    var child := if t.l.Bin? then t.l else t.r;
    RebuildKeepsOrder(ctx, child);
    PlugOrder(ctx, child);
    assert Order(t.l) + Order(t.r) == Order(child);
    assert Pre(ctx) + Order(t.l) + Order(t.r) == Pre(ctx) + (Order(t.l) + Order(t.r));
  }

  lemma DeleteEasyBalances<T>(ctx: Ctx<T>, t: Tree<T>)
    requires t.Bin? && (t.l.Nil? || t.r.Nil?)
    requires Balanced(Plug(ctx, t))
    ensures Balanced(DeleteEasy(ctx, t))
  {
    PlugBalanced(ctx, t);
    RebuildBalances(ctx, if t.l.Bin? then t.l else t.r, H(t));
  }

  /** Cutting out the leftmost node of t drops the first element of its order. */
  lemma {:induction false} MinOrder<T>(t: Tree<T>, up: Ctx<T>)
    requires t.Bin?
    ensures Order(t) != [] && Order(t)[0] == MinSub(t).n
    ensures Order(MinSub(t).r) + Post(MinCtx(t, up)) == Order(t)[1..] + Post(up)
  {
    if t.l.Bin? {
      MinOrder(t.l, InLeft(up, t.n, t.r));
      TailRegroup(Order(t.l), t.n, Order(t.r), Post(up));
    }
  }

  lemma CutMinOrder<T>(t: Tree<T>, up: Ctx<T>)
    requires t.Bin?
    ensures Order(t) != []
    ensures Order(DeleteEasy(MinCtx(t, up), MinSub(t))) == Pre(up) + Order(t)[1..] + Post(up)
  {
    var mctx, m := MinCtx(t, up), MinSub(t);
    MinPlug(t, up);
    MinOrder(t, up);
    DeleteEasyOrder(mctx, m);
    Regroup2(Pre(up), Order(m.r), Post(mctx));
    Regroup2(Pre(up), Order(t)[1..], Post(up));
  }

  /** With two children: cutting out the successor leaves the node itself in the tree, in its old position. */
  lemma DeleteKeepsOthers<T>(ctx: Ctx<T>, t: Tree<T>)
    requires t.Bin? && t.r.Bin?
    ensures Order(t.r) != []
    ensures t.n in Nodes(CutSuccessor(ctx, t))
    ensures Order(CutSuccessor(ctx, t)) == (Pre(ctx) + Order(t.l)) + [t.n] + (Order(t.r)[1..] + Post(ctx))
  {
    CutMinOrder(t.r, InRight(ctx, t.l, t.n));
    var cut := CutSuccessor(ctx, t);
    assert Order(cut) == (Pre(ctx) + Order(t.l)) + [t.n] + (Order(t.r)[1..] + Post(ctx));
    assert Order(cut)[|Pre(ctx) + Order(t.l)|] == t.n;
    NodesAreOrder(cut);
  }

  lemma FocusOrder<T>(t: Tree<T>, x: T, s: T, a: seq<T>, b: seq<T>)
    requires x in Nodes(t) && Order(t) == a + [x] + b && NoDup(Order(t))
    ensures Pre(Focus(t, x, Top)) + Order(Sub(t, x).l) == a
    ensures Order(Sub(t, x).r) + Post(Focus(t, x, Top)) == b
  {
    var ctx, sub := Focus(t, x, Top), Sub(t, x);
    FocusPlug(t, x, Top);
    PlugOrder(ctx, sub);
    var c, d := Pre(ctx) + Order(sub.l), Order(sub.r) + Post(ctx);
    assert Order(t) == c + [x] + d;
    NoDupConcat(a, x, b);
    NoDupConcat(c, x, d);
    SplitUnique(a, x, b, c, d);
  }

  lemma ReplaceOrder<T>(t: Tree<T>, x: T, s: T, a: seq<T>, b: seq<T>)
    requires x in Nodes(t) && Order(t) == a + [x] + b && NoDup(Order(t))
    ensures Order(Replace(t, x, s)) == a + [s] + b
  {
    var ctx, sub := Focus(t, x, Top), Sub(t, x);
    FocusOrder(t, x, s, a, b);
    PlugOrder(ctx, Bin(sub.l, s, sub.r));
    Regroup(Pre(ctx), Order(sub.l), s, Order(sub.r), Post(ctx));
  }

  lemma ReplaceBalanced<T>(t: Tree<T>, x: T, s: T)
    requires x in Nodes(t)
    ensures Balanced(t) <==> Balanced(Replace(t, x, s))
  {
    FocusPlug(t, x, Top);
    var sub := Sub(t, x);
    PlugBalanced(Focus(t, x, Top), sub); PlugBalanced(Focus(t, x, Top), Bin(sub.l, s, sub.r));
  }

  /** Removing the node t.n leaves every other node, in the old order. */
  lemma DeleteRemovesOne<T>(ctx: Ctx<T>, t: Tree<T>)
    requires t.Bin? && Distinct(Plug(ctx, t))
    ensures Order(Delete(ctx, t)) == (Pre(ctx) + Order(t.l)) + (Order(t.r) + Post(ctx))
  {
    if t.l.Nil? || t.r.Nil? {
      DeleteEasyOrder(ctx, t);
      Regroup2(Pre(ctx) + Order(t.l), Order(t.r), Post(ctx));
    } else {
      DeleteKeepsOthers(ctx, t);
      MinOrder(t.r, Top);
      ReplaceSuccessorOrder(ctx, t, CutSuccessor(ctx, t), MinSub(t.r).n);
    }
  }

  lemma ReplaceSuccessorOrder<T>(ctx: Ctx<T>, t: Tree<T>, cut: Tree<T>, s: T)
    requires t.Bin? && Distinct(Plug(ctx, t))
    requires Order(t.r) != [] && Order(t.r)[0] == s
    requires t.n in Nodes(cut)
    requires Order(cut) == (Pre(ctx) + Order(t.l)) + [t.n] + (Order(t.r)[1..] + Post(ctx))
    ensures Order(Replace(cut, t.n, s)) == (Pre(ctx) + Order(t.l)) + (Order(t.r) + Post(ctx))
  {
    var a, q, b := Pre(ctx) + Order(t.l), Order(t.r), Order(t.r)[1..] + Post(ctx);
    assert NoDup(a + [t.n] + b) by {
      Reattach0(s, q, Post(ctx));
      DeleteCutNoDup(ctx, t, a, s, b);
    }
    assert Order(Replace(cut, t.n, s)) == a + [s] + b by { ReplaceOrder(cut, t.n, s, a, b); }
    assert a + [s] + b == a + (q + Post(ctx)) by { Reattach(a, s, q, Post(ctx)); }
  }

  lemma {:induction false} DeleteCutNoDup<T>(ctx: Ctx<T>, t: Tree<T>, a: seq<T>, s: T, b: seq<T>)
    requires t.Bin? && Distinct(Plug(ctx, t))
    requires a == Pre(ctx) + Order(t.l) && [s] + b == Order(t.r) + Post(ctx)
    ensures NoDup(a + [t.n] + b)
  {
    PlugOrder(ctx, t);
    DistinctIsNoDup(Plug(ctx, t));
    Regroup(Pre(ctx), Order(t.l), t.n, Order(t.r), Post(ctx));
    Regroup(a, [t.n], s, b, []);
    assert NoDup(a + [t.n] + [s] + b) by { assert a + [t.n] + ([s] + b) == a + [t.n] + [s] + b; }
    NoDupDrop(a + [t.n], s, b);
  }

  /** Cutting out the successor keeps the other nodes, each once. */
  lemma CutSuccessorNodes<T>(ctx: Ctx<T>, t: Tree<T>)
    requires t.Bin? && t.r.Bin? && Distinct(Plug(ctx, t))
    ensures var s, cut := MinSub(t.r).n, CutSuccessor(ctx, t);
            Distinct(cut) && s !in Nodes(cut) && Nodes(cut) + {s} == CtxNodes(ctx) + Nodes(t)
  {
    hide Distinct, Nodes, Plug;
    var s, cut := MinSub(t.r).n, CutSuccessor(ctx, t);
    var a, b := (Pre(ctx) + Order(t.l)) + [t.n], Order(t.r)[1..] + Post(ctx);
    DeleteKeepsOthers(ctx, t);
    MinOrder(t.r, Top);
    PlugOrder(ctx, t);
    Regroup(Pre(ctx), Order(t.l), t.n, Order(t.r), Post(ctx));
    Reattach(a, s, Order(t.r), Post(ctx));
    assert Order(Plug(ctx, t)) == a + [s] + b;
    DistinctIsNoDup(Plug(ctx, t)); DistinctIsNoDup(cut);
    NoDupConcat(a, s, b);
    NoDupDrop(a, s, b);
    NodesAreOrder(Plug(ctx, t)); NodesAreOrder(cut); PlugNodes(ctx, t);
  }

  lemma DeleteBalances<T>(ctx: Ctx<T>, t: Tree<T>)
    requires t.Bin? && Balanced(Plug(ctx, t))
    ensures Balanced(Delete(ctx, t))
  {
    if t.l.Nil? || t.r.Nil? {
      DeleteEasyBalances(ctx, t);
    } else {
      var below := InRight(ctx, t.l, t.n);
      MinPlug(t.r, below);
      DeleteEasyBalances(MinCtx(t.r, below), MinSub(t.r));
      DeleteKeepsOthers(ctx, t);
      ReplaceBalanced(CutSuccessor(ctx, t), t.n, MinSub(t.r).n);
    }
  }

  /** Deletion in one statement: the order loses x alone, balance is kept. */
  lemma DeleteSpec<T>(t: Tree<T>, x: T)
    requires Distinct(t) && x in Nodes(t)
    ensures Order(Delete(Focus(t, x, Top), Sub(t, x))) == Without(Order(t), x)
    ensures Balanced(t) ==> Balanced(Delete(Focus(t, x, Top), Sub(t, x)))
  {
    var ctx, sub := Focus(t, x, Top), Sub(t, x);
    FocusPlug(t, x, Top);
    DeleteRemovesOne(ctx, sub);
    if Balanced(t) { DeleteBalances(ctx, sub); }
    PlugOrder(ctx, sub);
    var a, b := Pre(ctx) + Order(sub.l), Order(sub.r) + Post(ctx);
    Regroup(Pre(ctx), Order(sub.l), x, Order(sub.r), Post(ctx));
    DistinctIsNoDup(t);
    NoDupConcat(a, x, b);
    WithoutSplit(a, x, b);
  }

  // ----- positions -----

  /** The root of the subtree in the hole stands after everything left of the hole and its own left half. */
  lemma RootPosition<T>(ctx: Ctx<T>, t: Tree<T>)
    requires t.Bin?
    ensures |Pre(ctx)| + C(t.l) < |Order(Plug(ctx, t))|
    ensures Order(Plug(ctx, t))[|Pre(ctx)| + C(t.l)] == t.n
  {
    PlugOrder(ctx, t);
    CountIsLength(t.l);
    MidIndex(Pre(ctx), Order(t.l), t.n, Order(t.r), Post(ctx));
  }

  /** A path from the root and the height below its end fit into the height of the tree. */
  lemma {:induction false} PlugHeight<T>(ctx: Ctx<T>, t: Tree<T>)
    ensures Depth(ctx) + H(t) <= H(Plug(ctx, t))
    decreases ctx
  {
    if !ctx.Top? { PlugHeight(ctx.up, Above(ctx, t)); }
  }

  // ----- how far down -----

  /** The depth of the node at a position of the order. */
  function DepthAt<T>(t: Tree<T>, i: nat): nat {
    if t.Nil? || i == C(t.l) then 0
    else if i < C(t.l) then 1 + DepthAt(t.l, i)
    else 1 + DepthAt(t.r, i - C(t.l) - 1)
  }

  /** The depth of the hole at a position: where a new node gets that position. */
  function HoleDepth<T>(t: Tree<T>, i: nat): nat {
    if t.Nil? then 0
    else if i <= C(t.l) then 1 + HoleDepth(t.l, i)
    else 1 + HoleDepth(t.r, i - C(t.l) - 1)
  }

  /** The depth of the lowest node that has the nodes at two positions below it, or is one of them. */
  function Meet<T>(t: Tree<T>, i: nat, j: nat): nat {
    if t.Nil? then 0
    else if i < C(t.l) && j < C(t.l) then 1 + Meet(t.l, i, j)
    else if i > C(t.l) && j > C(t.l) then 1 + Meet(t.r, i - C(t.l) - 1, j - C(t.l) - 1)
    else 0
  }

  lemma {:induction false} DepthAtPlug<T>(ctx: Ctx<T>, t: Tree<T>, i: nat)
    requires i < C(t)
    ensures DepthAt(Plug(ctx, t), |Pre(ctx)| + i) == Depth(ctx) + DepthAt(t, i)
    decreases ctx
  {
    hide Order;
    match ctx
    case Top =>
    case InLeft(up, n, r) => DepthAtPlug(up, Above(ctx, t), i);
    case InRight(up, l, n) =>
      CountIsLength(l);
      DepthAtPlug(up, Above(ctx, t), C(l) + 1 + i);
  }

  lemma {:induction false} HoleDepthPlug<T>(ctx: Ctx<T>, t: Tree<T>, i: nat)
    requires i <= C(t)
    ensures HoleDepth(Plug(ctx, t), |Pre(ctx)| + i) == Depth(ctx) + HoleDepth(t, i)
    decreases ctx
  {
    hide Order;
    match ctx
    case Top =>
    case InLeft(up, n, r) => HoleDepthPlug(up, Above(ctx, t), i);
    case InRight(up, l, n) =>
      CountIsLength(l);
      HoleDepthPlug(up, Above(ctx, t), C(l) + 1 + i);
  }

  lemma {:induction false} MeetPlug<T>(ctx: Ctx<T>, t: Tree<T>, i: nat, j: nat)
    requires i < C(t) && j < C(t)
    ensures Meet(Plug(ctx, t), |Pre(ctx)| + i, |Pre(ctx)| + j) == Depth(ctx) + Meet(t, i, j)
    decreases ctx
  {
    hide Order;
    match ctx
    case Top =>
    case InLeft(up, n, r) => MeetPlug(up, Above(ctx, t), i, j);
    case InRight(up, l, n) =>
      CountIsLength(l);
      MeetPlug(up, Above(ctx, t), C(l) + 1 + i, C(l) + 1 + j);
  }

  /** A node below the hole and one elsewhere meet above the hole. */
  lemma {:induction false} MeetAbove<T>(ctx: Ctx<T>, t: Tree<T>, i: nat, q: nat)
    requires i < C(t) && q < C(Plug(ctx, t)) && !(|Pre(ctx)| <= q < |Pre(ctx)| + C(t))
    ensures Meet(Plug(ctx, t), |Pre(ctx)| + i, q) < Depth(ctx)
    decreases ctx, 0
  {
    hide Order;
    match ctx
    case Top =>
    case InLeft(up, n, r) =>
      MeetFurther(up, Above(ctx, t), i, q);
    case InRight(up, l, n) =>
      CountIsLength(l);
      MeetFurther(up, Above(ctx, t), C(l) + 1 + i, q);
  }

  /** They meet at the root of t, when both are below it on different sides, or further up. */
  lemma {:induction false} MeetFurther<T>(ctx: Ctx<T>, t: Tree<T>, i: nat, q: nat)
    requires i < C(t) && q < C(Plug(ctx, t))
    requires |Pre(ctx)| <= q < |Pre(ctx)| + C(t) ==> Meet(t, i, q - |Pre(ctx)|) == 0
    ensures Meet(Plug(ctx, t), |Pre(ctx)| + i, q) <= Depth(ctx)
    decreases ctx, 1
  {
    if |Pre(ctx)| <= q < |Pre(ctx)| + C(t) { MeetPlug(ctx, t, i, q - |Pre(ctx)|); } else { MeetAbove(ctx, t, i, q); }
  }

  /** The length of the path between the nodes at two positions. */
  ghost function Distance<T>(t: Tree<T>, i: nat, j: nat): int {
    DepthAt(t, i) + DepthAt(t, j) - 2 * Meet(t, i, j)
  }
}
