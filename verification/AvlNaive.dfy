/**
 * The node-by-node walk that avl_offset replaces, kept in the source as a comment: successor and
 * predecessor by pointers, repeated.  It meets the same specification as AvlSearch.Offset.
 */
module AvlNaive {
  import opened TreeShape
  import opened Avl
  import opened AvlSearch

  /** The leftmost node of a subtree. */
  method First(start: ZNode, ghost top: Ctx<ZNode>, ghost s: Tree<ZNode>, ghost t: Tree<ZNode>, ghost all: set<ZNode>)
    returns (r: ZNode)
    requires Focused(top, s, Mem(all)) && start == s.n && Plug(top, s) == t && Nodes(t) <= all
    ensures r == At(Order(t), |Pre(top)|)
  {
    ghost var m, ctx, sub := Mem(all), top, s;
    r := start;
    while r.left != null
      invariant Focused(ctx, sub, m) && r == sub.n && Plug(ctx, sub) == t && |Pre(ctx)| == |Pre(top)|
      decreases sub
    {
      MoveLeft(ctx, sub, m);
      r := r.left;
      ctx, sub := InLeft(ctx, sub.n, sub.r), sub.l;
    }
    Arrived(ctx, sub, t, |Pre(top)|);
  }

  /** The rightmost node of a subtree. */
  method Last(start: ZNode, ghost top: Ctx<ZNode>, ghost s: Tree<ZNode>, ghost t: Tree<ZNode>, ghost all: set<ZNode>)
    returns (r: ZNode)
    requires Focused(top, s, Mem(all)) && start == s.n && Plug(top, s) == t && Nodes(t) <= all
    ensures r == At(Order(t), |Pre(top)| + C(s) - 1)
  {
    ghost var m, ctx, sub := Mem(all), top, s;
    r := start;
    while r.right != null
      invariant Focused(ctx, sub, m) && r == sub.n && Plug(ctx, sub) == t
      invariant |Pre(ctx)| + C(sub) == |Pre(top)| + C(s)
      decreases sub
    {
      MoveRight(ctx, sub, m);
      r := r.right;
      ctx, sub := InRight(ctx, sub.l, sub.n), sub.r;
    }
    Arrived(ctx, sub, t, |Pre(top)| + C(s) - 1);
  }

  method Successor(start: ZNode, ghost t: Tree<ZNode>, ghost all: set<ZNode>, ghost pos: nat) returns (r: ZNode?)
    requires IsTree(Root(t), t, Mem(all)) && Nodes(t) <= all
    requires pos < |Order(t)| && Order(t)[pos] == start
    ensures r == At(Order(t), pos + 1)
  {
    hide Focused, H, Shape, Distinct;
    ghost var m := Mem(all);
    StartFocus(t, start, m, pos);
    ghost var ctx, sub := Focus(t, start, Top), Sub(t, start);
    var node := start;
    CountsHere(ctx, sub, m);
    if node.right != null {
      MoveRight(ctx, sub, m);
      r := First(node.right, InRight(ctx, sub.l, sub.n), sub.r, t, all);
      return;
    }
    while node.parent != null
      invariant Focused(ctx, sub, m) && sub.Bin? && node == sub.n && node in all
      invariant Plug(ctx, sub) == t && |Pre(ctx)| + C(sub) == pos + 1
      invariant m[node].parent == Par(ctx)
      decreases ctx
    {
      var parent := node.parent;
      MoveUp(ctx, sub, m);
      CountsHere(ctx.up, Above(ctx, sub), m);
      if node == parent.left {
        Arrived(ctx.up, Above(ctx, sub), t, pos + 1);
        return parent;
      }
      node := parent;
      ctx, sub := ctx.up, Above(ctx, sub);
    }
    CountIsLength(t);
    return null;
  }

  method Predecessor(start: ZNode, ghost t: Tree<ZNode>, ghost all: set<ZNode>, ghost pos: nat) returns (r: ZNode?)
    requires IsTree(Root(t), t, Mem(all)) && Nodes(t) <= all
    requires pos < |Order(t)| && Order(t)[pos] == start
    ensures r == At(Order(t), pos - 1)
  {
    hide Focused, H, Shape, Distinct;
    ghost var m := Mem(all);
    StartFocus(t, start, m, pos);
    ghost var ctx, sub := Focus(t, start, Top), Sub(t, start);
    var node := start;
    CountsHere(ctx, sub, m);
    if node.left != null {
      MoveLeft(ctx, sub, m);
      r := Last(node.left, InLeft(ctx, sub.n, sub.r), sub.l, t, all);
      return;
    }
    while node.parent != null
      invariant Focused(ctx, sub, m) && sub.Bin? && node == sub.n && node in all
      invariant Plug(ctx, sub) == t && |Pre(ctx)| == pos
      invariant m[node].parent == Par(ctx)
      decreases ctx
    {
      var parent := node.parent;
      MoveUp(ctx, sub, m);
      CountsHere(ctx.up, Above(ctx, sub), m);
      if node == parent.right {
        Arrived(ctx.up, Above(ctx, sub), t, pos - 1);
        return parent;
      }
      node := parent;
      ctx, sub := ctx.up, Above(ctx, sub);
    }
    return null;
  }

  /** One step at a time, stopping at the end of the tree. */
  method NaiveOffset(start: ZNode, offset: int, ghost t: Tree<ZNode>, ghost all: set<ZNode>, ghost pos: nat)
    returns (r: ZNode?)
    requires IsTree(Root(t), t, Mem(all)) && Nodes(t) <= all
    requires pos < |Order(t)| && Order(t)[pos] == start
    ensures r == At(Order(t), pos + offset)
  {
    r := start;
    var left := offset;
    while left > 0 && r != null
      invariant if offset > 0 then 0 <= left <= offset else left == offset
      invariant r == At(Order(t), pos + offset - left)
    {
      r := Successor(r, t, all, pos + offset - left);
      left := left - 1;
    }
    while left < 0 && r != null
      invariant if offset < 0 then offset <= left <= 0 && r == At(Order(t), pos + offset - left)
                else left >= 0 && r == At(Order(t), pos + offset)
      decreases -left
    {
      r := Predecessor(r, t, all, pos + offset - left);
      left := left + 1;
    }
  }

  /** The fast walk finds the node that the node-by-node walk finds, whatever the offset. */
  method OffsetMatchesNaive(start: ZNode, offset: int, ghost t: Tree<ZNode>, ghost all: set<ZNode>)
    returns (fast: ZNode?, naive: ZNode?, ghost pos: nat)
    requires IsTree(Root(t), t, Mem(all)) && Nodes(t) <= all && start in Nodes(t)
    ensures pos < |Order(t)| && Order(t)[pos] == start
    ensures fast == naive == At(Order(t), pos + offset)
  {
    NodesAreOrder(t);
    pos :| 0 <= pos < |Order(t)| && Order(t)[pos] == start;
    ghost var moves;
    fast, moves := Offset(start, offset, t, all, pos);
    naive := NaiveOffset(start, offset, t, all, pos);
  }
}
