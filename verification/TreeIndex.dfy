/**
 * The (score, name) index as a whole: adding, removing and rescoring a node of a balanced,
 * sorted tree.
 */
module TreeIndex {
  import opened Names
  import opened Seqs
  import opened TreeShape
  import opened Avl
  import opened AvlSearch

  /** A balanced search tree over the nodes of t, as far as the snapshots m and k say. */
  ghost predicate IsIndex(root: ZNode?, t: Tree<ZNode>, m: Memory, k: Keys) {
    IsTree(root, t, m) && Balanced(t) && Sorted(Order(t), k)
  }

  lemma IndexFrame(root: ZNode?, t: Tree<ZNode>, m: Memory, k: Keys, m': Memory, k': Keys)
    requires IsIndex(root, t, m, k)
    requires forall n <- Nodes(t) :: (n in m ==> n in m' && m'[n] == m[n]) && (n in k ==> n in k' && k'[n] == k[n])
    ensures IsIndex(root, t, m', k')
  {
    ShapeFrame(t, null, m, m');
    NodesAreOrder(t);
    SortedFrame(Order(t), k, k');
  }

  lemma SortedWithout(s: seq<ZNode>, x: ZNode, k: Keys)
    requires Sorted(s, k) && NoDup(s) && x in s
    ensures Sorted(Without(s, x), k)
  {
    var i :| 0 <= i < |s| && s[i] == x;
    var a, b := s[..i], s[i + 1..];
    assert s == a + [x] + b;
    SortedSplit(a, x, b, k);
    assert x !in a by { assert forall j :: 0 <= j < i ==> a[j] == s[j] != s[i]; }
    WithoutSplit(a, x, b);
  }

  /** Take a node out of the index. */
  method RemoveNode(root0: ZNode?, node: ZNode, ghost t: Tree<ZNode>, ghost all: set<ZNode>)
    returns (root: ZNode?, ghost t': Tree<ZNode>)
    requires IsIndex(root0, t, Mem(all), KeysOf(all)) && Nodes(t) <= all && node in Nodes(t)
    modifies all`parent, all`left, all`right, all`height, all`cnt
    ensures IsIndex(root, t', Mem(all), KeysOf(all)) && Nodes(t') == Nodes(t) - {node}
    ensures Order(t') == Without(Order(t), node) && t' == Removed(t, node)
  {
    hide Shape, Sorted;
    ghost var k := KeysOf(all);
    root, t' := Del(node, t, all);
    DistinctWithout(t, node, t');
    DistinctIsNoDup(t);
    NodesAreOrder(t);
    SortedWithout(Order(t), node, k);
    assert KeysOf(all) == k;
  }

  /** No other node has this node's name. */
  ghost predicate NameIsOwn(node: ZNode, others: set<ZNode>) {
    forall x <- others :: x != node ==> x.name != node.name
  }

  /** Add a node whose pair is not in the index. */
  method AddNode(root0: ZNode?, node: ZNode, ghost t: Tree<ZNode>, ghost all: set<ZNode>)
    returns (root: ZNode?, ghost t': Tree<ZNode>, ghost pos: nat, ghost moves: nat)
    requires IsIndex(root0, t, Mem(all), KeysOf(all)) && all == Nodes(t) + {node} && node !in Nodes(t)
    requires node.left == null && node.right == null
    requires NameIsOwn(node, all)
    modifies all`parent, all`left, all`right, all`height, all`cnt
    ensures IsIndex(root, t', Mem(all), KeysOf(all)) && Nodes(t') == all
    ensures At(Order(t'), pos) == node && moves == HoleDepth(t, pos) && Logarithmic(moves, |all|)
  {
    hide Shape, Sorted, HoleDepth, DepthAt;
    assert forall x <- Nodes(t) :: x.Pair() != node.Pair();
    root, t', pos, moves := AvlSearch.Insert(root0, node, t, all);
    NodesAreOrder(t);
    NodesAreOrder(t');
    InsertSteps(t, node, moves);
    InsertedElems(Order(t), pos, node);
  }

  /** The search among the old nodes is short for the new number of nodes. */
  lemma InsertSteps(t: Tree<ZNode>, node: ZNode, steps: nat)
    requires Balanced(t) && Distinct(t) && node !in Nodes(t) && steps <= H(t)
    ensures Logarithmic(steps, |Nodes(t) + {node}|)
  {
    HeightIsLogarithmic(t, steps);
    CountIsSize(t);
  }

  /** Detach, change the score, and reinsert. */
  method Rescore(root0: ZNode?, node: ZNode, score: Score, ghost t: Tree<ZNode>, ghost all: set<ZNode>)
    returns (root: ZNode?, ghost t': Tree<ZNode>, ghost pos: nat, ghost moves: nat)
    requires IsIndex(root0, t, Mem(all), KeysOf(all)) && all == Nodes(t) && node in all
    requires NameIsOwn(node, all)
    modifies all`parent, all`left, all`right, all`height, all`cnt, node`score
    ensures IsIndex(root, t', Mem(all), KeysOf(all)) && Nodes(t') == all
    ensures node.score == score && At(Order(t'), pos) == node
    ensures moves == HoleDepth(Removed(t, node), pos) && Logarithmic(moves, |all|)
  {
    hide Shape, Sorted, HoleDepth, Removed;
    var r;
    ghost var u;
    r, u := RemoveNode(root0, node, t, all);
    ghost var m, k := Mem(all), KeysOf(all);
    node.left, node.right, node.parent, node.height, node.cnt := null, null, null, 1, 1;
    node.score := score;
    IndexFrame(r, u, m, k, Mem(all), KeysOf(all));
    root, t', pos, moves := AddNode(r, node, u, all);
  }
}
