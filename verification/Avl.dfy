/**
 * The intrusive AVL tree: nodes with parent pointers and cached height and count,
 * rebalanced by walking from the changed node up to the root.  Every method is proved
 * to compute, on the pointers, the function of module TreeShape that names its result.
 */
module Avl {
  import opened Names
  import opened Seqs
  import opened TreeShape

  /** The tree links of one node. */
  datatype Link = Link(parent: ZNode?, left: ZNode?, right: ZNode?, height: nat, cnt: nat)

  /** A sorted-set node with the tree links embedded in it; container_of is the identity. */
  class ZNode {
    var parent: ZNode?
    var left: ZNode?
    var right: ZNode?
    var height: nat
    var cnt: nat
    var score: Score
    const name: Bytes

    constructor (name: Bytes, score: Score)
      ensures this.name == name && this.score == score
      ensures Links() == Link(null, null, null, 1, 1)
    {
      this.name := name;
      this.score := score;
      parent, left, right := null, null, null;
      height, cnt := 1, 1;
    }

    ghost function Links(): Link
      reads this`parent, this`left, this`right, this`height, this`cnt
    {
      Link(parent, left, right, height, cnt)
    }

    function Pair(): Pair
      reads this`score
    {
      P(score, name)
    }
  }

  /** A snapshot of the links of a set of nodes. */
  type Memory = map<ZNode, Link>

  ghost function Mem(s: set<ZNode>): Memory
    reads s`parent, s`left, s`right, s`height, s`cnt
  {
    map n | n in s :: n.Links()
  }

  ghost function Root(t: Tree<ZNode>): ZNode? { if t.Nil? then null else t.n }

  ghost function Par(ctx: Ctx<ZNode>): ZNode? { if ctx.Top? then null else ctx.n }

  /** In snapshot m the links spell out t under parent p, with exact heights and counts. */
  ghost predicate Shape(t: Tree<ZNode>, p: ZNode?, m: Memory) {
    t.Bin? ==>
      && t.n in m && m[t.n] == Link(p, Root(t.l), Root(t.r), H(t), C(t))
      && Shape(t.l, t.n, m) && Shape(t.r, t.n, m)
  }

  /** As Shape, but the root's own parent, height and count are left open. */
  ghost predicate RootTied(t: Tree<ZNode>, m: Memory) {
    && t.Bin? && t.n in m && m[t.n].left == Root(t.l) && m[t.n].right == Root(t.r)
    && Shape(t.l, t.n, m) && Shape(t.r, t.n, m)
  }

  /** The links around a hole that holds child; heights and counts on the path may be stale. */
  ghost predicate Path(ctx: Ctx<ZNode>, child: ZNode?, m: Memory) {
    match ctx
    case Top => true
    case InLeft(up, n, r) =>
      && n in m && m[n].left == child && m[n].right == Root(r) && m[n].parent == Par(up)
      && Shape(r, n, m) && Path(up, n, m)
    case InRight(up, l, n) =>
      && n in m && m[n].left == Root(l) && m[n].right == child && m[n].parent == Par(up)
      && Shape(l, n, m) && Path(up, n, m)
  }

  /** The path's heights and counts are exact when the hole has height h and count c. */
  ghost predicate Exact(ctx: Ctx<ZNode>, h: nat, c: nat, m: Memory) {
    match ctx
    case Top => true
    case InLeft(up, n, r) =>
      n in m && m[n].height == 1 + Max(h, H(r)) && m[n].cnt == 1 + c + C(r) && Exact(up, m[n].height, m[n].cnt, m)
    case InRight(up, l, n) =>
      n in m && m[n].height == 1 + Max(H(l), h) && m[n].cnt == 1 + C(l) + c && Exact(up, m[n].height, m[n].cnt, m)
  }

  lemma {:induction false} ShapePlug(ctx: Ctx<ZNode>, t: Tree<ZNode>, m: Memory)
    ensures Shape(Plug(ctx, t), null, m) <==>
            Shape(t, Par(ctx), m) && Path(ctx, Root(t), m) && Exact(ctx, H(t), C(t), m)
  {
    if !ctx.Top? { ShapePlug(ctx.up, Above(ctx, t), m); }
  }

  /** Two snapshots agree on a set of nodes. */
  ghost predicate Agree(s: set<ZNode>, m: Memory, m': Memory) {
    forall n <- s :: n in m ==> n in m' && m'[n] == m[n]
  }

  lemma {:induction false} ShapeFrame(t: Tree<ZNode>, p: ZNode?, m: Memory, m': Memory)
    requires Shape(t, p, m) && Agree(Nodes(t), m, m')
    ensures Shape(t, p, m')
  {
    if t.Bin? { ShapeFrame(t.l, t.n, m, m'); ShapeFrame(t.r, t.n, m, m'); }
  }

  lemma {:induction false} PathFrame(ctx: Ctx<ZNode>, child: ZNode?, m: Memory, m': Memory)
    requires Path(ctx, child, m) && Agree(CtxNodes(ctx), m, m')
    ensures Path(ctx, child, m')
  {
    match ctx
    case Top =>
    case InLeft(up, n, r) => ShapeFrame(r, n, m, m'); PathFrame(up, n, m, m');
    case InRight(up, l, n) => ShapeFrame(l, n, m, m'); PathFrame(up, n, m, m');
  }

  /** Only the root's parent differs. */
  lemma Reparent(t: Tree<ZNode>, p: ZNode?, p': ZNode?, m: Memory, m': Memory)
    requires t.Bin? && Distinct(t) && Shape(t, p, m) && Agree(Nodes(t) - {t.n}, m, m')
    requires t.n in m' && m'[t.n] == m[t.n].(parent := p')
    ensures Shape(t, p', m')
  {
    ShapeFrame(t.l, t.n, m, m');
    ShapeFrame(t.r, t.n, m, m');
  }

  // ----- one node -----

  function Height(node: ZNode?): nat
    reads node
  {
    if node != null then node.height else 0
  }

  function Cnt(node: ZNode?): nat
    reads node
  {
    if node != null then node.cnt else 0
  }

  method Update(node: ZNode)
    modifies node`height, node`cnt
    ensures node.height == 1 + Max(old(Height(node.left)), old(Height(node.right)))
    ensures node.cnt == 1 + old(Cnt(node.left)) + old(Cnt(node.right))
  {
    node.height := 1 + Max(Height(node.left), Height(node.right));
    node.cnt := 1 + Cnt(node.left) + Cnt(node.right);
  }

  ghost function HeightIn(n: ZNode?, m: Memory): nat { if n != null && n in m then m[n].height else 0 }

  ghost function CntIn(n: ZNode?, m: Memory): nat { if n != null && n in m then m[n].cnt else 0 }

  /** A node's links with height and count from its children's. */
  ghost function Updated(m: Memory, x: ZNode): Link
    requires x in m
  {
    m[x].(height := 1 + Max(HeightIn(m[x].left, m), HeightIn(m[x].right, m)),
          cnt := 1 + CntIn(m[x].left, m) + CntIn(m[x].right, m))
  }

  method UpdateAt(node: ZNode, ghost all: set<ZNode>)
    requires node in all && (node.left != null ==> node.left in all) && (node.right != null ==> node.right in all)
    modifies node`height, node`cnt
    ensures Mem(all) == old(Mem(all))[node := Updated(old(Mem(all)), node)]
  {
    ghost var m := Mem(all);
    assert m[node] == node.Links() && (node.left != null ==> m[node.left] == node.left.Links());
    assert node.right != null ==> m[node.right] == node.right.Links();
    Update(node);
    assert node.Links() == Updated(m, node);
    assert Mem(all) == m[node := node.Links()];
  }

  /** Only the links of x, y and z differ between the snapshots. */
  ghost predicate OnlyThese(m: Memory, m': Memory, x: ZNode?, y: ZNode?, z: ZNode?) {
    m'.Keys == m.Keys && forall n <- m :: n != x && n != y && n != z ==> m'[n] == m[n]
  }

  lemma RootCounts(t: Tree<ZNode>, p: ZNode?, m: Memory)
    requires Shape(t, p, m)
    ensures HeightIn(Root(t), m) == H(t) && CntIn(Root(t), m) == C(t)
    ensures t.Bin? ==> t.n in Nodes(t)
  {
  }

  /** The neighbourhood of a left rotation: x with right child y, whose left child is z. */
  ghost predicate LeftSite(x: ZNode, y: ZNode, z: ZNode?, m: Memory) {
    && x in m && y in m && m[x].right == y && m[y].left == z && x != y
    && (z != null ==> z in m && z != x && z != y)
    && var a, e := m[x].left, m[y].right;
    && (a != null ==> a in m && a != x && a != y && a != z)
    && (e != null ==> e in m && e != x && e != y && e != z)
  }

  /** What a left rotation at x writes. */
  ghost predicate LeftRotated(x: ZNode, y: ZNode, z: ZNode?, m: Memory, m': Memory)
    requires LeftSite(x, y, z, m)
  {
    var a, e := m[x].left, m[y].right;
    && OnlyThese(m, m', x, y, z)
    && (z != null ==> m'[z] == m[z].(parent := x))
    && m'[x] == Link(y, a, z, 1 + Max(HeightIn(a, m), HeightIn(z, m)), 1 + CntIn(a, m) + CntIn(z, m))
    && m'[y] == Link(m[x].parent, x, e, 1 + Max(m'[x].height, HeightIn(e, m)), 1 + m'[x].cnt + CntIn(e, m))
  }

  /** The pointers that a left rotation writes. */
  ghost predicate LeftLinked(x: ZNode, y: ZNode, z: ZNode?, m: Memory, m': Memory)
    requires LeftSite(x, y, z, m)
  {
    && OnlyThese(m, m', x, y, z) && (z != null ==> m'[z] == m[z].(parent := x))
    && m'[x] == m[x].(parent := y, right := z) && m'[y] == m[y].(parent := m[x].parent, left := x)
  }

  lemma LeftRotatedBy(x: ZNode, y: ZNode, z: ZNode?, m: Memory, m1: Memory)
    requires LeftSite(x, y, z, m) && LeftLinked(x, y, z, m, m1)
    ensures var m2 := m1[x := Updated(m1, x)];
            LeftRotated(x, y, z, m, m2[y := Updated(m2, y)])
  {
  }

  method RelinkLeft(node: ZNode, ghost all: set<ZNode>) returns (top: ZNode)
    requires node in all && node.right != null && node.right in all
    requires LeftSite(node, node.right, node.right.left, Mem(all))
    modifies all`parent, all`left, all`right
    ensures top == old(node.right)
    ensures LeftLinked(node, top, old(node.right.left), old(Mem(all)), Mem(all))
  {
    var parent := node.parent;
    var right := node.right;
    var rightLeft := right.left;
    ghost var m := Mem(all);
    assert rightLeft != null ==> m[rightLeft] == rightLeft.Links();
    node.right := rightLeft;
    if rightLeft != null {
      rightLeft.parent := node;
    }
    right.parent := parent;
    right.left := node;
    node.parent := right;
    top := right;
  }

  method RotateLeft(node: ZNode, ghost all: set<ZNode>) returns (top: ZNode)
    requires node in all && node.right != null && node.right in all
    requires LeftSite(node, node.right, node.right.left, Mem(all))
    modifies all`parent, all`left, all`right, all`height, all`cnt
    ensures top == old(node.right)
    ensures LeftRotated(node, top, old(node.right.left), old(Mem(all)), Mem(all))
  {
    ghost var m, z := Mem(all), node.right.left;
    top := RelinkLeft(node, all);
    ghost var m1 := Mem(all);
    UpdateAt(node, all);
    UpdateAt(top, all);
    LeftRotatedBy(node, top, z, m, m1);
  }

  lemma RotateLeftSite(t: Tree<ZNode>, m: Memory)
    requires Distinct(t) && RootTied(t, m) && t.r.Bin?
    ensures LeftSite(t.n, t.r.n, Root(t.r.l), m)
  {
    assert Distinct(t.r) && Shape(t.r, t.n, m);
    assert Shape(t.r.l, t.r.n, m) && Shape(t.r.r, t.r.n, m);
    assert t.l.Bin? ==> t.l.n in Nodes(t.l);
    assert t.r.l.Bin? ==> t.r.l.n in Nodes(t.r.l);
    assert t.r.r.Bin? ==> t.r.r.n in Nodes(t.r.r);
  }

  /** On a tree, what a left rotation writes is the rotated tree. */
  lemma RotateLeftShape(t: Tree<ZNode>, m: Memory, m': Memory)
    requires Distinct(t) && RootTied(t, m) && t.r.Bin?
    requires LeftSite(t.n, t.r.n, Root(t.r.l), m) && LeftRotated(t.n, t.r.n, Root(t.r.l), m, m')
    ensures Shape(RotLeft(t), m[t.n].parent, m')
    ensures Agree(m.Keys - Nodes(t), m, m')
  {
    var a, c, e := t.l, t.r.l, t.r.r;
    assert Distinct(t.r) && Shape(t.r, t.n, m);
    RootCounts(a, t.n, m); RootCounts(c, t.r.n, m); RootCounts(e, t.r.n, m);
    assert Agree(Nodes(a) + Nodes(e), m, m') && Agree(Nodes(c) - {Root(c)}, m, m');
    ShapeFrame(a, t.n, m, m');
    ShapeFrame(e, t.r.n, m, m');
    if c.Bin? { Reparent(c, t.r.n, t.n, m, m'); }
  }

  /** The neighbourhood of a right rotation: x with left child y, whose right child is z. */
  ghost predicate RightSite(x: ZNode, y: ZNode, z: ZNode?, m: Memory) {
    && x in m && y in m && m[x].left == y && m[y].right == z && x != y
    && (z != null ==> z in m && z != x && z != y)
    && var a, e := m[y].left, m[x].right;
    && (a != null ==> a in m && a != x && a != y && a != z)
    && (e != null ==> e in m && e != x && e != y && e != z)
  }

  /** What a right rotation at x writes. */
  ghost predicate RightRotated(x: ZNode, y: ZNode, z: ZNode?, m: Memory, m': Memory)
    requires RightSite(x, y, z, m)
  {
    var a, e := m[y].left, m[x].right;
    && OnlyThese(m, m', x, y, z)
    && (z != null ==> m'[z] == m[z].(parent := x))
    && m'[x] == Link(y, z, e, 1 + Max(HeightIn(z, m), HeightIn(e, m)), 1 + CntIn(z, m) + CntIn(e, m))
    && m'[y] == Link(m[x].parent, a, x, 1 + Max(HeightIn(a, m), m'[x].height), 1 + CntIn(a, m) + m'[x].cnt)
  }

  /** The pointers that a right rotation writes. */
  ghost predicate RightLinked(x: ZNode, y: ZNode, z: ZNode?, m: Memory, m': Memory)
    requires RightSite(x, y, z, m)
  {
    && OnlyThese(m, m', x, y, z) && (z != null ==> m'[z] == m[z].(parent := x))
    && m'[x] == m[x].(parent := y, left := z) && m'[y] == m[y].(parent := m[x].parent, right := x)
  }

  lemma RightRotatedBy(x: ZNode, y: ZNode, z: ZNode?, m: Memory, m1: Memory)
    requires RightSite(x, y, z, m) && RightLinked(x, y, z, m, m1)
    ensures var m2 := m1[x := Updated(m1, x)];
            RightRotated(x, y, z, m, m2[y := Updated(m2, y)])
  {
  }

  method RelinkRight(node: ZNode, ghost all: set<ZNode>) returns (top: ZNode)
    requires node in all && node.left != null && node.left in all
    requires RightSite(node, node.left, node.left.right, Mem(all))
    modifies all`parent, all`left, all`right
    ensures top == old(node.left)
    ensures RightLinked(node, top, old(node.left.right), old(Mem(all)), Mem(all))
  {
    var parent := node.parent;
    var left := node.left;
    var leftRight := left.right;
    ghost var m := Mem(all);
    assert leftRight != null ==> m[leftRight] == leftRight.Links();
    node.left := leftRight;
    if leftRight != null {
      leftRight.parent := node;
    }
    left.parent := parent;
    left.right := node;
    node.parent := left;
    top := left;
  }

  method RotateRight(node: ZNode, ghost all: set<ZNode>) returns (top: ZNode)
    requires node in all && node.left != null && node.left in all
    requires RightSite(node, node.left, node.left.right, Mem(all))
    modifies all`parent, all`left, all`right, all`height, all`cnt
    ensures top == old(node.left)
    ensures RightRotated(node, top, old(node.left.right), old(Mem(all)), Mem(all))
  {
    ghost var m, z := Mem(all), node.left.right;
    top := RelinkRight(node, all);
    ghost var m1 := Mem(all);
    UpdateAt(node, all);
    UpdateAt(top, all);
    RightRotatedBy(node, top, z, m, m1);
  }

  lemma RotateRightSite(t: Tree<ZNode>, m: Memory)
    requires Distinct(t) && RootTied(t, m) && t.l.Bin?
    ensures RightSite(t.n, t.l.n, Root(t.l.r), m)
  {
    assert Distinct(t.l) && Shape(t.l, t.n, m);
    assert Shape(t.l.l, t.l.n, m) && Shape(t.l.r, t.l.n, m);
    assert t.r.Bin? ==> t.r.n in Nodes(t.r);
    assert t.l.l.Bin? ==> t.l.l.n in Nodes(t.l.l);
    assert t.l.r.Bin? ==> t.l.r.n in Nodes(t.l.r);
  }

  /** On a tree, what a right rotation writes is the rotated tree. */
  lemma RotateRightShape(t: Tree<ZNode>, m: Memory, m': Memory)
    requires Distinct(t) && RootTied(t, m) && t.l.Bin?
    requires RightSite(t.n, t.l.n, Root(t.l.r), m) && RightRotated(t.n, t.l.n, Root(t.l.r), m, m')
    ensures Shape(RotRight(t), m[t.n].parent, m')
    ensures Agree(m.Keys - Nodes(t), m, m')
  {
    var a, c, e := t.l.l, t.l.r, t.r;
    assert Distinct(t.l) && Shape(t.l, t.n, m);
    RootCounts(a, t.l.n, m); RootCounts(c, t.l.n, m); RootCounts(e, t.n, m);
    assert Agree(Nodes(a) + Nodes(e), m, m') && Agree(Nodes(c) - {Root(c)}, m, m');
    ShapeFrame(a, t.l.n, m, m');
    ShapeFrame(e, t.n, m, m');
    if c.Bin? { Reparent(c, t.l.n, t.n, m, m'); }
  }

  /** A rotation stated on trees rather than on single links. */
  method RotateTreeLeft(node: ZNode, ghost t: Tree<ZNode>, ghost all: set<ZNode>) returns (top: ZNode)
    requires Distinct(t) && RootTied(t, Mem(all)) && Nodes(t) <= all && node == t.n && t.r.Bin?
    modifies all`parent, all`left, all`right, all`height, all`cnt
    ensures top == t.r.n && Shape(RotLeft(t), old(node.parent), Mem(all))
    ensures Agree(all - Nodes(t), old(Mem(all)), Mem(all))
  {
    ghost var m := Mem(all);
    RotateLeftSite(t, m);
    top := RotateLeft(node, all);
    RotateLeftShape(t, m, Mem(all));
  }

  method RotateTreeRight(node: ZNode, ghost t: Tree<ZNode>, ghost all: set<ZNode>) returns (top: ZNode)
    requires Distinct(t) && RootTied(t, Mem(all)) && Nodes(t) <= all && node == t.n && t.l.Bin?
    modifies all`parent, all`left, all`right, all`height, all`cnt
    ensures top == t.l.n && Shape(RotRight(t), old(node.parent), Mem(all))
    ensures Agree(all - Nodes(t), old(Mem(all)), Mem(all))
  {
    ghost var m := Mem(all);
    RotateRightSite(t, m);
    top := RotateRight(node, all);
    RotateRightShape(t, m, Mem(all));
  }

  // ----- repairing one node -----

  /** A rotated left child linked back under its node. */
  lemma {:induction false} LinkLeftChild(t: Tree<ZNode>, l: Tree<ZNode>, m: Memory, m1: Memory, m2: Memory)
    requires Distinct(t) && RootTied(t, m) && Nodes(l) == Nodes(t.l) && Distinct(l)
    requires Nodes(t) <= m.Keys && m1.Keys == m.Keys
    requires Agree(m.Keys - Nodes(t.l), m, m1) && Shape(l, t.n, m1)
    requires OnlyThese(m1, m2, t.n, null, null) && m2[t.n] == m1[t.n].(left := Root(l))
    ensures var u := Bin(l, t.n, t.r);
            Distinct(u) && RootTied(u, m2) && Nodes(u) == Nodes(t)
    ensures m2[t.n].parent == m[t.n].parent && Agree(m.Keys - Nodes(t), m, m2)
  {
    ShapeFrame(l, t.n, m1, m2);
    ShapeFrame(t.r, t.n, m, m2);
  }

  lemma {:induction false} LinkRightChild(t: Tree<ZNode>, r: Tree<ZNode>, m: Memory, m1: Memory, m2: Memory)
    requires Distinct(t) && RootTied(t, m) && Nodes(r) == Nodes(t.r) && Distinct(r)
    requires Nodes(t) <= m.Keys && m1.Keys == m.Keys
    requires Agree(m.Keys - Nodes(t.r), m, m1) && Shape(r, t.n, m1)
    requires OnlyThese(m1, m2, t.n, null, null) && m2[t.n] == m1[t.n].(right := Root(r))
    ensures var u := Bin(t.l, t.n, r);
            Distinct(u) && RootTied(u, m2) && Nodes(u) == Nodes(t)
    ensures m2[t.n].parent == m[t.n].parent && Agree(m.Keys - Nodes(t), m, m2)
  {
    ShapeFrame(r, t.n, m1, m2);
    ShapeFrame(t.l, t.n, m, m2);
  }

  /** node->left = rot_left(node->left) */
  method RotateLeftChild(node: ZNode, ghost t: Tree<ZNode>, ghost all: set<ZNode>)
    requires Distinct(t) && RootTied(t, Mem(all)) && Nodes(t) <= all && node == t.n && t.l.Bin? && t.l.r.Bin?
    modifies all`parent, all`left, all`right, all`height, all`cnt
    ensures var u := Bin(RotLeft(t.l), t.n, t.r);
            Distinct(u) && RootTied(u, Mem(all)) && Nodes(u) == Nodes(t)
    ensures node.parent == old(node.parent) && Agree(all - Nodes(t), old(Mem(all)), Mem(all))
  {
    ghost var m := Mem(all);
    var l := RotateTreeLeft(node.left, t.l, all);
    ghost var m1 := Mem(all);
    node.left := l;
    RotationsKeepNodes(t.l);
    LinkLeftChild(t, RotLeft(t.l), m, m1, Mem(all));
  }

  /** node->right = rot_right(node->right) */
  method RotateRightChild(node: ZNode, ghost t: Tree<ZNode>, ghost all: set<ZNode>)
    requires Distinct(t) && RootTied(t, Mem(all)) && Nodes(t) <= all && node == t.n && t.r.Bin? && t.r.l.Bin?
    modifies all`parent, all`left, all`right, all`height, all`cnt
    ensures var u := Bin(t.l, t.n, RotRight(t.r));
            Distinct(u) && RootTied(u, Mem(all)) && Nodes(u) == Nodes(t)
    ensures node.parent == old(node.parent) && Agree(all - Nodes(t), old(Mem(all)), Mem(all))
  {
    ghost var m := Mem(all);
    var r := RotateTreeRight(node.right, t.r, all);
    ghost var m1 := Mem(all);
    node.right := r;
    RotationsKeepNodes(t.r);
    LinkRightChild(t, RotRight(t.r), m, m1, Mem(all));
  }

  method FixLeft(node: ZNode, ghost t: Tree<ZNode>, ghost all: set<ZNode>) returns (top: ZNode)
    requires Distinct(t) && RootTied(t, Mem(all)) && Nodes(t) <= all && node == t.n
    requires H(t.l) == H(t.r) + 2
    modifies all`parent, all`left, all`right, all`height, all`cnt
    ensures top == Root(FixedLeft(t)) && Shape(FixedLeft(t), old(node.parent), Mem(all))
    ensures Agree(all - Nodes(t), old(Mem(all)), Mem(all))
  {
    RootCounts(t.l.l, t.l.n, Mem(all));
    RootCounts(t.l.r, t.l.n, Mem(all));
    if Height(node.left.left) < Height(node.left.right) {
      RotateLeftChild(node, t, all);
      top := RotateTreeRight(node, Bin(RotLeft(t.l), t.n, t.r), all);
    } else {
      top := RotateTreeRight(node, t, all);
    }
  }

  method FixRight(node: ZNode, ghost t: Tree<ZNode>, ghost all: set<ZNode>) returns (top: ZNode)
    requires Distinct(t) && RootTied(t, Mem(all)) && Nodes(t) <= all && node == t.n
    requires H(t.r) == H(t.l) + 2
    modifies all`parent, all`left, all`right, all`height, all`cnt
    ensures top == Root(FixedRight(t)) && Shape(FixedRight(t), old(node.parent), Mem(all))
    ensures Agree(all - Nodes(t), old(Mem(all)), Mem(all))
  {
    RootCounts(t.r.l, t.r.n, Mem(all));
    RootCounts(t.r.r, t.r.n, Mem(all));
    if Height(node.right.right) < Height(node.right.left) {
      RotateRightChild(node, t, all);
      top := RotateTreeLeft(node, Bin(t.l, t.n, RotRight(t.r)), all);
    } else {
      top := RotateTreeLeft(node, t, all);
    }
  }

  // ----- the walk to the root -----

  /** The parent's link to the hole now holds another child. */
  lemma PathRelink(ctx: Ctx<ZNode>, child: ZNode?, child': ZNode?, m: Memory, m': Memory)
    requires CtxDistinct(ctx) && Path(ctx, child, m)
    requires OnlyThese(m, m', Par(ctx), null, null)
    requires ctx.InLeft? ==> m'[ctx.n] == m[ctx.n].(left := child')
    requires ctx.InRight? ==> m'[ctx.n] == m[ctx.n].(right := child')
    ensures Path(ctx, child', m')
  {
    match ctx
    case Top =>
    case InLeft(up, n, r) => ShapeFrame(r, n, m, m'); PathFrame(up, n, m, m');
    case InRight(up, l, n) => ShapeFrame(l, n, m, m'); PathFrame(up, n, m, m');
  }

  /** A subtree at the hole of ctx whose root may have stale height and count; path above may be stale too. */
  ghost predicate AtHole(ctx: Ctx<ZNode>, t: Tree<ZNode>, m: Memory) {
    && RootTied(t, m) && m[t.n].parent == Par(ctx) && Path(ctx, t.n, m)
    && CtxDistinct(ctx) && Distinct(t) && CtxNodes(ctx) !! Nodes(t)
  }

  lemma UpdatedShape(t: Tree<ZNode>, m: Memory, m': Memory)
    requires Distinct(t) && RootTied(t, m) && OnlyThese(m, m', t.n, null, null)
    requires m'[t.n] == m[t.n].(height := H(t), cnt := C(t))
    ensures Shape(t, m[t.n].parent, m') && RootTied(t, m')
  {
    ShapeFrame(t.l, t.n, m, m');
    ShapeFrame(t.r, t.n, m, m');
  }

  /** Refresh a node's height and count and rotate if its children differ by two. */
  method FixNode(node: ZNode, ghost t: Tree<ZNode>, ghost all: set<ZNode>) returns (top: ZNode)
    requires Distinct(t) && RootTied(t, Mem(all)) && Nodes(t) <= all && node == t.n
    modifies all`parent, all`left, all`right, all`height, all`cnt
    ensures top == Root(FixedNode(t)) && Shape(FixedNode(t), old(node.parent), Mem(all))
    ensures Agree(all - Nodes(t), old(Mem(all)), Mem(all))
  {
    ghost var m := Mem(all);
    RootCounts(t.l, node, m);
    RootCounts(t.r, node, m);
    Update(node);
    UpdatedShape(t, m, Mem(all));
    RootCounts(t.l, node, Mem(all));
    RootCounts(t.r, node, Mem(all));
    var l := Height(node.left);
    var r := Height(node.right);
    if l == r + 2 {
      top := FixLeft(node, t, all);
    } else if r == l + 2 {
      top := FixRight(node, t, all);
    } else {
      top := node;
    }
  }

  /** Write through the incoming pointer: &parent->left or &parent->right. */
  method SetChild(parent: ZNode, fromLeft: bool, child: ZNode?, ghost all: set<ZNode>)
    requires parent in all
    modifies parent`left, parent`right
    ensures Mem(all) == old(Mem(all))[parent := old(WithChild(parent.Links(), fromLeft, child))]
  {
    ghost var m := Mem(all);
    if fromLeft {
      parent.left := child;
    } else {
      parent.right := child;
    }
    assert Mem(all) == m[parent := parent.Links()];
  }

  function WithChild(k: Link, fromLeft: bool, child: ZNode?): Link {
    if fromLeft then k.(left := child) else k.(right := child)
  }

  /** Walk from the lowest changed node to the root, repairing every node on the way. */
  method Fix(start: ZNode, ghost ctx0: Ctx<ZNode>, ghost t0: Tree<ZNode>, ghost all: set<ZNode>) returns (root: ZNode)
    requires AtHole(ctx0, t0, Mem(all)) && start == t0.n && CtxNodes(ctx0) + Nodes(t0) <= all
    modifies all`parent, all`left, all`right, all`height, all`cnt
    ensures root == Root(Rebuild(ctx0, FixedNode(t0))) && Shape(Rebuild(ctx0, FixedNode(t0)), null, Mem(all))
    ensures Agree(all - CtxNodes(ctx0) - Nodes(t0), old(Mem(all)), Mem(all))
  {
    var node := start;
    ghost var ctx, t := ctx0, t0;
    while true
      invariant AtHole(ctx, t, Mem(all)) && node == t.n
      invariant CtxNodes(ctx) + Nodes(t) == CtxNodes(ctx0) + Nodes(t0)
      invariant Rebuild(ctx, FixedNode(t)) == Rebuild(ctx0, FixedNode(t0))
      invariant Agree(all - CtxNodes(ctx0) - Nodes(t0), old(Mem(all)), Mem(all))
      decreases ctx
    {
      var parent := node.parent;
      var fromLeft := parent != null && parent.left == node;
      ghost var m := Mem(all);
      node := FixNode(node, t, all);
      ghost var m1 := Mem(all);
      if parent == null {
        return node;
      }
      SetChild(parent, fromLeft, node, all);
      Climb(ctx, t, m, m1, Mem(all));
      t := Above(ctx, FixedNode(t));
      ctx := ctx.up;
      node := parent;
    }
  }

  /** A subtree c linked, in place of child, under the context's innermost node. */
  lemma LinkAbove(ctx: Ctx<ZNode>, child: ZNode, c: Tree<ZNode>, m1: Memory, m2: Memory)
    requires !ctx.Top? && CtxDistinct(ctx) && child !in CtxNodes(ctx)
    requires Distinct(c) && Nodes(c) !! CtxNodes(ctx)
    requires Shape(c, Par(ctx), m1) && Path(ctx, child, m1)
    requires m2 == m1[ctx.n := WithChild(m1[ctx.n], m1[ctx.n].left == child, Root(c))]
    ensures AtHole(ctx.up, Above(ctx, c), m2)
    ensures CtxNodes(ctx.up) + Nodes(Above(ctx, c)) == CtxNodes(ctx) + Nodes(c)
  {
    AboveDistinct(ctx, c);
    assert ctx.InRight? ==> m1[ctx.n].left != child by {
      assert ctx.InRight? && ctx.l.Bin? ==> ctx.l.n in Nodes(ctx.l);
    }
    PathRelink(ctx, child, Root(c), m1, m2);
    ShapeFrame(c, ctx.n, m1, m2);
  }

  /** One iteration of the walk, on snapshots: before, after the repair, after linking to the parent. */
  lemma Climb(ctx: Ctx<ZNode>, t: Tree<ZNode>, m: Memory, m1: Memory, m2: Memory)
    requires AtHole(ctx, t, m) && !ctx.Top? && CtxNodes(ctx) + Nodes(t) <= m.Keys && m1.Keys == m.Keys
    requires Shape(FixedNode(t), Par(ctx), m1) && Agree(m.Keys - Nodes(t), m, m1)
    requires m2 == m1[ctx.n := WithChild(m1[ctx.n], m[ctx.n].left == t.n, Root(FixedNode(t)))]
    ensures AtHole(ctx.up, Above(ctx, FixedNode(t)), m2)
    ensures CtxNodes(ctx.up) + Nodes(Above(ctx, FixedNode(t))) == CtxNodes(ctx) + Nodes(t)
    ensures Agree(m.Keys - CtxNodes(ctx) - Nodes(t), m, m2)
  {
    var u := FixedNode(t);
    FixedNodeKeepsOrder(t);
    SameOrder(t, u);
    PathFrame(ctx, t.n, m, m1);
    LinkAbove(ctx, t.n, u, m1, m2);
  }

  // ----- deletion -----

  /** A whole tree in memory. */
  ghost predicate IsTree(root: ZNode?, t: Tree<ZNode>, m: Memory) {
    root == Root(t) && Distinct(t) && Shape(t, null, m)
  }

  lemma FocusHole(t: Tree<ZNode>, x: ZNode, m: Memory)
    requires Distinct(t) && Shape(t, null, m) && x in Nodes(t)
    ensures var ctx, sub := Focus(t, x, Top), Sub(t, x);
            AtHole(ctx, sub, m) && CtxNodes(ctx) + Nodes(sub) == Nodes(t)
    ensures Shape(Sub(t, x), Par(Focus(t, x, Top)), m)
    ensures Exact(Focus(t, x, Top), H(Sub(t, x)), C(Sub(t, x)), m)
  {
    var ctx, sub := Focus(t, x, Top), Sub(t, x);
    FocusPlug(t, x, Top);
    PlugDistinct(ctx, sub);
    PlugNodes(ctx, sub);
    ShapePlug(ctx, sub, m);
  }

  /** Cutting out a node with at most one child, on snapshots. */
  lemma CutShape(ctx: Ctx<ZNode>, t: Tree<ZNode>, c: Tree<ZNode>, m: Memory, m1: Memory)
    requires AtHole(ctx, t, m) && CtxNodes(ctx) + Nodes(t) <= m.Keys
    requires (t.l.Nil? && c == t.r) || (t.r.Nil? && c == t.l)
    requires m1 == if c.Bin? then m[c.n := m[c.n].(parent := Par(ctx))] else m
    ensures Shape(c, Par(ctx), m1) && Path(ctx, t.n, m1)
    ensures Agree(m.Keys - CtxNodes(ctx) - Nodes(t), m, m1)
  {
    if c.Bin? { Reparent(c, t.n, Par(ctx), m, m1); }
    PathFrame(ctx, t.n, m, m1);
  }

  method DelEasy(node: ZNode, ghost ctx: Ctx<ZNode>, ghost t: Tree<ZNode>, ghost all: set<ZNode>)
    returns (root: ZNode?)
    requires AtHole(ctx, t, Mem(all)) && t.Bin? && node == t.n && CtxNodes(ctx) + Nodes(t) <= all
    requires t.l.Nil? || t.r.Nil?
    modifies all`parent, all`left, all`right, all`height, all`cnt
    ensures root == Root(DeleteEasy(ctx, t)) && Shape(DeleteEasy(ctx, t), null, Mem(all))
  {
    hide AtHole, Path;
    ghost var c := if t.l.Bin? then t.l else t.r;
    var parent := node.parent;
    var child := Unlink(node, ctx, t, all);
    if parent == null {
      return child;
    }
    root := Fix(parent, ctx.up, Above(ctx, c), all);
  }

  /** The node's only child takes its place below its parent. */
  method Unlink(node: ZNode, ghost ctx: Ctx<ZNode>, ghost t: Tree<ZNode>, ghost all: set<ZNode>)
    returns (child: ZNode?)
    requires AtHole(ctx, t, Mem(all)) && t.Bin? && node == t.n && CtxNodes(ctx) + Nodes(t) <= all
    requires t.l.Nil? || t.r.Nil?
    modifies all`parent, all`left, all`right
    ensures var c := if t.l.Bin? then t.l else t.r;
            && child == Root(c) && old(node.parent) == Par(ctx) && (ctx.Top? ==> Shape(c, null, Mem(all)))
            && (!ctx.Top? ==> AtHole(ctx.up, Above(ctx, c), Mem(all)))
            && CtxNodes(ctx) + Nodes(c) <= all
            && (!ctx.Top? ==> CtxNodes(ctx.up) + Nodes(Above(ctx, c)) == CtxNodes(ctx) + Nodes(c))
  {
    hide H, C, Order, CtxDistinct;
    ghost var c, m := if t.l.Bin? then t.l else t.r, Mem(all);
    child := if node.left != null then node.left else node.right;
    var parent := node.parent;
    if child != null {
      child.parent := parent;
    }
    ghost var m1 := Mem(all);
    CutShape(ctx, t, c, m, m1);
    if parent != null {
      SetChild(parent, parent.left == node, child, all);
      LinkAbove(ctx, node, c, m1, Mem(all));
    }
  }

  /** Walk to the leftmost node below r, which sits in context top. */
  method Leftmost(start: ZNode, ghost top: Ctx<ZNode>, ghost r: Tree<ZNode>, ghost all: set<ZNode>)
    returns (node: ZNode)
    requires AtHole(top, r, Mem(all)) && Shape(r, Par(top), Mem(all)) && start == r.n && CtxNodes(top) + Nodes(r) <= all
    ensures node == MinSub(r).n && AtHole(MinCtx(r, top), MinSub(r), Mem(all))
    ensures CtxNodes(MinCtx(r, top)) + Nodes(MinSub(r)) == CtxNodes(top) + Nodes(r)
  {
    node := start;
    ghost var ctx, t := top, r;
    while node.left != null
      invariant AtHole(ctx, t, Mem(all)) && Shape(t, Par(ctx), Mem(all)) && node == t.n
      invariant CtxNodes(ctx) + Nodes(t) == CtxNodes(top) + Nodes(r)
      invariant MinSub(t) == MinSub(r) && MinCtx(t, ctx) == MinCtx(r, top)
      decreases t
    {
      node := node.left;
      ctx, t := InLeft(ctx, t.n, t.r), t.l;
    }
  }

  lemma {:induction false} ExactFrame(ctx: Ctx<ZNode>, h: nat, c: nat, m: Memory, m': Memory)
    requires Exact(ctx, h, c, m)
    requires forall n <- CtxNodes(ctx) :: n in m ==> n in m' && m'[n].height == m[n].height && m'[n].cnt == m[n].cnt
    ensures Exact(ctx, h, c, m')
  {
    match ctx
    case Top =>
    case InLeft(up, n, r) => ExactFrame(up, m[n].height, m[n].cnt, m, m');
    case InRight(up, l, n) => ExactFrame(up, m[n].height, m[n].cnt, m, m');
  }

  /** The children of the replaced node point back at its substitute. */
  ghost predicate Copied(x: ZNode, s: ZNode, m: Memory, m': Memory)
    requires x in m
  {
    var a, b := m[x].left, m[x].right;
    && m'.Keys == m.Keys && s in m && m'[s] == m[x]
    && (forall n <- m :: n != s && n != a && n != b ==> m'[n] == m[n])
    && (a != null ==> a in m && m'[a] == m[a].(parent := s))
    && (b != null ==> b in m && m'[b] == m[b].(parent := s))
  }

  lemma CopiedShape(ctx: Ctx<ZNode>, t: Tree<ZNode>, s: ZNode, m: Memory, m1: Memory)
    requires AtHole(ctx, t, m) && Shape(t, Par(ctx), m) && Exact(ctx, H(t), C(t), m)
    requires s !in CtxNodes(ctx) && s !in Nodes(t) && Copied(t.n, s, m, m1)
    ensures Shape(Bin(t.l, s, t.r), Par(ctx), m1)
    ensures Path(ctx, t.n, m1) && Exact(ctx, H(t), C(t), m1)
  {
    assert t.l.Bin? ==> t.l.n in Nodes(t.l);
    assert t.r.Bin? ==> t.r.n in Nodes(t.r);
    if t.l.Bin? { Reparent(t.l, t.n, s, m, m1); }
    if t.r.Bin? { Reparent(t.r, t.n, s, m, m1); }
    PathFrame(ctx, t.n, m, m1);
    ExactFrame(ctx, H(t), C(t), m, m1);
  }

  lemma SubstituteShape(ctx: Ctx<ZNode>, t: Tree<ZNode>, x: ZNode, m1: Memory, m2: Memory)
    requires CtxDistinct(ctx) && t.Bin? && Distinct(t) && CtxNodes(ctx) !! Nodes(t) && x !in CtxNodes(ctx)
    requires Shape(t, Par(ctx), m1) && Path(ctx, x, m1) && Exact(ctx, H(t), C(t), m1)
    requires m2 == if ctx.Top? then m1 else m1[ctx.n := WithChild(m1[ctx.n], m1[ctx.n].left == x, t.n)]
    ensures Shape(Plug(ctx, t), null, m2) && Distinct(Plug(ctx, t))
  {
    assert ctx.InRight? ==> m1[ctx.n].left != x by {
      assert ctx.InRight? && ctx.l.Bin? ==> ctx.l.n in Nodes(ctx.l);
    }
    PathRelink(ctx, x, t.n, m1, m2);
    ShapeFrame(t, Par(ctx), m1, m2);
    ExactFrame(ctx, H(t), C(t), m1, m2);
    ShapePlug(ctx, t, m2);
    PlugDistinct(ctx, t);
  }

  lemma {:induction false} PlugRoot(ctx: Ctx<ZNode>, t: Tree<ZNode>)
    requires t.Bin?
    ensures Plug(ctx, t).Bin? && (ctx.Top? ==> Plug(ctx, t).n == t.n)
    ensures !ctx.Top? ==> forall u: Tree<ZNode> :: u.Bin? ==> Root(Plug(ctx, u)) == Root(Plug(ctx, t))
    decreases ctx
  {
    if !ctx.Top? {
      PlugRoot(ctx.up, Above(ctx, t));
      forall u: Tree<ZNode> | u.Bin? ensures Root(Plug(ctx, u)) == Root(Plug(ctx, t)) {
        assert ctx.up.Top? ==> Root(Plug(ctx, u)) == ctx.n;
      }
    }
  }

  /** *s = *x, then make the children point at s. */
  method CopyNode(x: ZNode, s: ZNode, ghost all: set<ZNode>)
    requires x in all && s in all && s != x && x.left != s && x.right != s
    requires x.left != null ==> x.left in all && x.left != x
    requires x.right != null ==> x.right in all && x.right != x && x.right != x.left
    modifies all`parent, all`left, all`right, all`height, all`cnt
    ensures Copied(x, s, old(Mem(all)), Mem(all))
    ensures x.Links() == old(x.Links())
  {
    ghost var m := Mem(all);
    s.parent, s.left, s.right, s.height, s.cnt := x.parent, x.left, x.right, x.height, x.cnt;
    assert s.Links() == m[x];
    if s.left != null {
      s.left.parent := s;
    }
    if s.right != null {
      s.right.parent := s;
    }
    assert s.Links() == m[x];
    assert s.left != null ==> s.left.Links() == m[s.left].(parent := s);
    assert s.right != null ==> s.right.Links() == m[s.right].(parent := s);
  }

  lemma CopySite(t: Tree<ZNode>, s: ZNode, m: Memory)
    requires Distinct(t) && RootTied(t, m) && s !in Nodes(t)
    ensures s != t.n && Root(t.l) != s && Root(t.r) != s && Root(t.l) != t.n && Root(t.r) != t.n
    ensures t.r.Bin? ==> t.r.n in Nodes(t) && Root(t.l) != t.r.n
    ensures t.l.Bin? ==> t.l.n in Nodes(t)
  {
  }

  /** Put s where x stands: copy x's links, then relink its neighbours to s. */
  method Substitute(x: ZNode, s: ZNode, oldRoot: ZNode?, ghost t: Tree<ZNode>, ghost all: set<ZNode>)
    returns (root: ZNode?)
    requires IsTree(oldRoot, t, Mem(all)) && Nodes(t) <= all && x in Nodes(t) && s in all && s !in Nodes(t)
    modifies all`parent, all`left, all`right, all`height, all`cnt
    ensures IsTree(root, Replace(t, x, s), Mem(all))
  {
    hide Shape, Copied;
    ghost var ctx, sub, m := Focus(t, x, Top), Sub(t, x), Mem(all);
    FocusHole(t, x, m);
    CopySite(sub, s, m);
    CopyNode(x, s, all);
    ghost var m1 := Mem(all);
    CopiedShape(ctx, sub, s, m, m1);
    root := oldRoot;
    var parent := x.parent;
    if parent != null {
      SetChild(parent, parent.left == x, s, all);
    } else {
      root := s;
    }
    SubstituteShape(ctx, Bin(sub.l, s, sub.r), x, m1, Mem(all));
    FocusPlug(t, x, Top);
    PlugRoot(ctx, sub);
  }

  lemma DescendRight(ctx: Ctx<ZNode>, t: Tree<ZNode>, m: Memory)
    requires AtHole(ctx, t, m) && Shape(t, Par(ctx), m) && t.r.Bin?
    ensures AtHole(InRight(ctx, t.l, t.n), t.r, m) && Shape(t.r, t.n, m)
    ensures CtxNodes(InRight(ctx, t.l, t.n)) + Nodes(t.r) == CtxNodes(ctx) + Nodes(t)
  {
  }

  /** Detach a node; return the new root.  The tree keeps every other node, in order. */
  method Del(node: ZNode, ghost t: Tree<ZNode>, ghost all: set<ZNode>) returns (root: ZNode?, ghost t': Tree<ZNode>)
    requires IsTree(Root(t), t, Mem(all)) && node in Nodes(t) && Nodes(t) <= all
    modifies all`parent, all`left, all`right, all`height, all`cnt
    ensures IsTree(root, t', Mem(all)) && t' == Removed(t, node)
    ensures Order(t') == Without(Order(t), node)
    ensures Balanced(t) ==> Balanced(t')
  {
    ghost var ctx, sub := Focus(t, node, Top), Sub(t, node);
    FocusHole(t, node, Mem(all));
    DeleteSpec(t, node);
    t' := Delete(ctx, sub);
    if node.left == null || node.right == null {
      root := DelEasy(node, ctx, sub, all);
    } else {
      DescendRight(ctx, sub, Mem(all));
      ghost var below := InRight(ctx, sub.l, node);
      var successor := Leftmost(node.right, below, sub.r, all);
      root := DelEasy(successor, MinCtx(sub.r, below), MinSub(sub.r), all);
      FocusPlug(t, node, Top);
      CutSuccessorNodes(ctx, sub);
      DeleteKeepsOthers(ctx, sub);
      root := Substitute(node, successor, root, CutSuccessor(ctx, sub), all);
    }
    DistinctWithout(t, node, t');
  }

  lemma DistinctWithout(t: Tree<ZNode>, x: ZNode, t': Tree<ZNode>)
    requires Distinct(t) && x in Nodes(t) && Order(t') == Without(Order(t), x)
    ensures Distinct(t') && Nodes(t') == Nodes(t) - {x}
  {
    NodesAreOrder(t); NodesAreOrder(t'); DistinctIsNoDup(t); DistinctIsNoDup(t');
    WithoutNoDup(Order(t), x);
  }
}
