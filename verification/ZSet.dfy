/**
 * The sorted set: one set of nodes, indexed by (score, name) in an AVL tree and by name in
 * a hash map.
 */
module ZSets {
  import opened Names
  import opened Seqs
  import opened TreeShape
  import opened Avl
  import opened AvlSearch
  import opened TreeIndex
  import opened PairOrder
  import AvlDispose
  import opened HashTable
  import opened HashMap
  import opened KeyIndex

  type HN = HNode<ZNode>

  /** The two indexes hold the same nodes: one tree node and one hash node for every name. */
  ghost predicate Indexed(nodes: set<ZNode>, hnodes: set<HN>, byName: map<Bytes, ZNode>, hashed: map<Bytes, HN>)
  {
    && Keyed(hnodes, byName, hashed)
    && (forall z <- nodes :: z.name in byName && byName[z.name] == z)
    && (forall n <- byName :: byName[n] in nodes && byName[n].name == n)
  }

  lemma IndexLookup(nodes: set<ZNode>, hnodes: set<HN>, byName: map<Bytes, ZNode>, hashed: map<Bytes, HN>, name: Bytes)
    requires Indexed(nodes, hnodes, byName, hashed)
    ensures name in byName <==> name in hashed
    ensures name in hashed ==> hashed[name] in hnodes && hashed[name].hcode == StrHash(name) && hashed[name].key == name
    ensures name in hashed ==> hashed[name].owner == byName[name]
    ensures forall h <- hnodes :: h.key == name ==> name in hashed && h == hashed[name]
    ensures name in byName ==> byName[name] in nodes && byName[name].name == name
  {
  }

  lemma IndexAdd(nodes: set<ZNode>, hnodes: set<HN>, byName: map<Bytes, ZNode>, hashed: map<Bytes, HN>, z: ZNode, h: HN)
    requires Indexed(nodes, hnodes, byName, hashed) && z.name !in byName
    requires h.key == z.name && h.owner == z && h.hcode == StrHash(z.name)
    ensures Indexed(nodes + {z}, hnodes + {h}, byName[z.name := z], hashed[z.name := h])
    ensures z !in nodes && h !in hnodes
  {
  }

  lemma IndexRemove(nodes: set<ZNode>, hnodes: set<HN>, byName: map<Bytes, ZNode>, hashed: map<Bytes, HN>, z: ZNode)
    requires Indexed(nodes, hnodes, byName, hashed) && z in nodes
    ensures z.name in byName && z.name in hashed
    ensures Indexed(nodes - {z}, hnodes - {hashed[z.name]}, byName - {z.name}, hashed - {z.name})
  {
  }

  lemma OwnName(nodes: set<ZNode>, hnodes: set<HN>, byName: map<Bytes, ZNode>, hashed: map<Bytes, HN>, z: ZNode)
    requires Indexed(nodes, hnodes, byName, hashed) && z in nodes
    ensures z.name in byName && byName[z.name] == z && NameIsOwn(z, nodes)
    ensures z.name in hashed && hashed[z.name] in hnodes && hashed[z.name].key == z.name
    ensures hashed[z.name].hcode == StrHash(z.name) && hashed[z.name].owner == z
  {
  }

  /** Each name with the score of its node. */
  ghost function ScoreMap(byName: map<Bytes, ZNode>, k: Keys): map<Bytes, Score> {
    map n | n in byName && byName[n] in k :: k[byName[n]].score
  }

  lemma ScoreMapAdd(nodes: set<ZNode>, hs: set<HN>, byName: map<Bytes, ZNode>, hashed: map<Bytes, HN>, k: Keys,
                    z: ZNode, k': Keys)
    requires Indexed(nodes, hs, byName, hashed) && k.Keys == nodes && z in k'
    requires forall x <- k :: x in k' && k'[x] == k[x]
    ensures ScoreMap(byName[z.name := z], k') == ScoreMap(byName, k)[z.name := k'[z].score]
  {
  }

  lemma ScoreMapSet(nodes: set<ZNode>, hs: set<HN>, byName: map<Bytes, ZNode>, hashed: map<Bytes, HN>, k: Keys,
                    z: ZNode, score: Score)
    requires Indexed(nodes, hs, byName, hashed) && k.Keys == nodes && z in nodes
    ensures ScoreMap(byName, k[z := P(score, z.name)]) == ScoreMap(byName, k)[z.name := score]
    ensures k[z].score == score ==> ScoreMap(byName, k)[z.name := score] == ScoreMap(byName, k)
  {
  }

  lemma ScoreMapRemove(nodes: set<ZNode>, hs: set<HN>, byName: map<Bytes, ZNode>, hashed: map<Bytes, HN>, k: Keys,
                       z: ZNode, k': Keys)
    requires z.name in byName && byName[z.name] == z
    requires Indexed(nodes - {z}, hs, byName - {z.name}, hashed - {z.name}) && k.Keys == nodes
    requires k' == k - {z}
    ensures ScoreMap(byName - {z.name}, k') == ScoreMap(byName, k) - {z.name}
  {
  }

  /** The names of the score map are the names of the nodes. */
  lemma ScoreMapKeys(nodes: set<ZNode>, hs: set<HN>, byName: map<Bytes, ZNode>, hashed: map<Bytes, HN>, k: Keys)
    requires Indexed(nodes, hs, byName, hashed) && k.Keys == nodes
    ensures ScoreMap(byName, k).Keys == byName.Keys
  {
  }

  /** The node sequence s carries the pairs o, one by one. */
  ghost predicate Carries(s: seq<ZNode>, k: Keys, o: seq<Pair>) {
    |s| == |o| && forall i :: 0 <= i < |s| ==> s[i] in k && k[s[i]] == o[i]
  }

  /** The nodes in tree order carry the listing of the score map. */
  lemma TreeListsScores(nodes: set<ZNode>, hs: set<HN>, byName: map<Bytes, ZNode>, hashed: map<Bytes, HN>, k: Keys,
                        s: seq<ZNode>)
    requires Indexed(nodes, hs, byName, hashed) && k.Keys == nodes && Elems(s) == nodes && Sorted(s, k)
    requires forall z <- k :: k[z].name == z.name
    ensures Carries(s, k, Ordered(ScoreMap(byName, k)))
  {
    hide Less, Lists, Ordered;
    var m := ScoreMap(byName, k);
    var o := seq(|s|, i requires 0 <= i < |s| && s[i] in k => k[s[i]]);
    assert forall i :: 0 <= i < |s| ==> s[i] in Elems(s);
    PairsAreListed(nodes, hs, byName, hashed, k, s, o);
    OrderedLists(m);
    ListingUnique(o, Ordered(m), m);
  }

  /** The nodes' pairs, in their order, list the scores. */
  lemma PairsAreListed(nodes: set<ZNode>, hs: set<HN>, byName: map<Bytes, ZNode>, hashed: map<Bytes, HN>, k: Keys,
                       s: seq<ZNode>, o: seq<Pair>)
    requires Indexed(nodes, hs, byName, hashed) && k.Keys == nodes && Elems(s) == nodes && Sorted(s, k)
    requires (forall z <- k :: k[z].name == z.name) && Carries(s, k, o)
    ensures Lists(o, ScoreMap(byName, k))
  {
    hide Less, Keyed;
    var m := ScoreMap(byName, k);
    forall i | 0 <= i < |o| ensures o[i].name in m && m[o[i].name] == o[i].score {
      assert s[i] in Elems(s) && byName[s[i].name] == s[i];
    }
    forall n | n in m ensures P(m[n], n) in o {
      assert byName[n] in Elems(s);
      var i :| 0 <= i < |s| && s[i] == byName[n];
      assert o[i] == P(m[n], n);
    }
  }

  class ZSet {
    var root: ZNode?
    const hmap: HMap<ZNode>
    ghost var tree: Tree<ZNode>
    ghost var nodes: set<ZNode>
    ghost var byName: map<Bytes, ZNode>
    ghost var hashed: map<Bytes, HN>
    ghost var scores: map<Bytes, Score>  // the set as a value: each name with its score
    ghost var Repr: set<object>

    /** The tree index: a balanced search tree by (score, name) over exactly the nodes. */
    ghost predicate TreeOk()
      reads this`root, this`tree, this`nodes, nodes
    {
      Nodes(tree) == nodes && IsIndex(root, tree, Mem(nodes), KeysOf(nodes))
    }

    /** The tree index while one of the nodes is not in it. */
    ghost predicate TreeLacks(node: ZNode)
      reads this`root, this`tree, this`nodes, nodes
    {
      Nodes(tree) == nodes - {node} && IsIndex(root, tree, Mem(nodes), KeysOf(nodes))
    }

    /** The hash index, and its agreement with the tree. */
    ghost predicate HashOk()
      reads this`nodes, this`byName, this`hashed, hmap, hmap.newer, hmap.older, hmap.newer.tab, hmap.older.tab,
          hmap.newer.nodes, hmap.older.nodes
    {
      hmap.Valid() && Indexed(nodes, hmap.Nodes(), byName, hashed)
    }

    ghost predicate Valid()
      reads this, Repr, hmap, hmap.newer, hmap.older, hmap.newer.tab, hmap.older.tab, hmap.newer.nodes, hmap.older.nodes
      ensures Valid() ==> this in Repr && hmap in Repr && nodes <= Repr && hmap.newer in Repr && hmap.older in Repr
      ensures Valid() ==> hmap.Nodes() <= Repr && hmap.parts <= Repr
      ensures Valid() && hmap.newer.tab != null ==> hmap.newer.tab in Repr
      ensures Valid() && hmap.older.tab != null ==> hmap.older.tab in Repr
    {
      && this in Repr && nodes <= Repr && hmap.parts + hmap.Nodes() <= Repr
      && this !in hmap.parts && nodes !! hmap.parts
      && TreeOk() && HashOk() && ScoresOk()
    }

    /** Valid, for callers that know the set by its footprint only. */
    ghost predicate Ok()
      reads this, Repr
      ensures Ok() ==> this in Repr
    {
      && {this, hmap} <= Repr && {hmap.newer, hmap.older} <= Repr && nodes <= Repr && hmap.Nodes() <= Repr
      && (hmap.newer.tab != null ==> hmap.newer.tab in Repr) && (hmap.older.tab != null ==> hmap.older.tab in Repr)
      && Valid()
    }

    lemma OkIsValid()
      ensures Ok() <==> Valid()
    {
    }

    ghost predicate ScoresOk()
      reads this`scores, this`byName, this`nodes, nodes`score
    {
      scores == ScoreMap(byName, KeysOf(nodes))
    }

    constructor ()
      ensures Valid() && scores == map[] && fresh(Repr)
    {
      hide HMap.Valid;
      root := null;
      hmap := new HMap();
      tree, nodes, byName, hashed, scores := Nil, {}, map[], map[], map[];
      new;
      Repr := {this} + hmap.parts;
    }

    /** Without a root there is no name to find. */
    lemma EmptyIndex()
      requires TreeOk() && HashOk() && root == null
      ensures byName == map[]
    {
    }

    /** hm_lookup by name: some keys may migrate, nothing else changes. */
    method HashLookup(name: Bytes) returns (found: HNode?<ZNode>)
      requires Valid()
      modifies this`Repr, hmap.parts, hmap.Nodes()
      ensures Valid() && fresh(Repr - old(Repr))
      ensures found == if name in hashed then hashed[name] else null
      ensures name in byName <==> name in hashed
      ensures found != null ==> found.owner == byName[name] && byName[name] in nodes && byName[name].name == name
    {
      hide StrHash, TreeOk, HMap.Valid, Indexed, ScoresOk;
      var hcode := ComputeHash(name);
      IndexLookup(nodes, hmap.Nodes(), byName, hashed, name);
      found := hmap.Lookup(hcode, (h: HN) => h.key == name);
      Repr := Repr + hmap.parts;
    }

    /** Find a node by name and delete it. */
    method RemoveName(name: Bytes) returns (removed: bool)
      requires Valid()
      modifies Repr
      ensures Valid() && fresh(Repr - old(Repr))
      ensures removed == (name in old(scores)) && scores == old(scores) - {name}
    {
      hide TreeOk, HashOk, ScoresOk, HMap.Valid;
      var node := Find(name);
      removed := node != null;
      if removed {
        Delete(node);
      }
    }

    /** Find a node by name. */
    method Lookup(name: Bytes) returns (r: ZNode?)
      requires Valid()
      modifies this`Repr, hmap.parts, hmap.Nodes()
      ensures Valid() && fresh(Repr - old(Repr))
      ensures r == if name in byName then byName[name] else null
      ensures r != null ==> r in nodes && r.name == name
    {
      hide TreeOk, HMap.Valid, ScoreMap, Indexed;
      if root == null {
        EmptyIndex();
        return null;
      }
      var found := HashLookup(name);
      r := if found == null then null else found.owner;
    }

    /** Record the tree that an operation on the nodes' links has built. */
    method SetTree(r: ZNode?, ghost t: Tree<ZNode>)
      requires IsIndex(r, t, Mem(nodes), KeysOf(nodes))
      modifies this`root, this`tree
      ensures root == r && tree == t && IsIndex(root, tree, Mem(nodes), KeysOf(nodes))
    {
      hide IsIndex, ScoreMap;
      ghost var m, k := Mem(nodes), KeysOf(nodes);
      root, tree := r, t;
      assert Mem(nodes) == m && KeysOf(nodes) == k;
    }

    /** Detach, change the score, reinsert. */
    method RescoreTree(node: ZNode, score: Score) returns (ghost pos: nat, ghost moves: nat)
      requires TreeOk() && node in nodes && NameIsOwn(node, nodes)
      modifies this`root, this`tree, nodes`parent, nodes`left, nodes`right, nodes`height, nodes`cnt, node`score
      ensures TreeOk() && node.score == score && Logarithmic(moves, |nodes|)
      ensures At(Order(tree), pos) == node && moves == HoleDepth(Removed(old(tree), node), pos)
    {
      hide IsIndex, NameIsOwn, Logarithmic, HoleDepth, Removed, At;
      var r;
      ghost var t;
      r, t, pos, moves := Rescore(root, node, score, tree, nodes);
      SetTree(r, t);
    }

    /** The new score is the only change to the set. */
    method RescoreNode(node: ZNode, score: Score, ghost hs: set<HN>) returns (ghost pos: nat, ghost moves: nat)
      requires TreeOk() && ScoresOk() && node in nodes && Indexed(nodes, hs, byName, hashed)
      modifies this`root, this`tree, this`scores, nodes`parent, nodes`left, nodes`right, nodes`height, nodes`cnt,
          node`score
      ensures TreeOk() && ScoresOk() && scores == old(scores)[node.name := score] && Logarithmic(moves, |nodes|)
      ensures At(Order(tree), pos) == node && moves == HoleDepth(Removed(old(tree), node), pos) && node.score == score
    {
      hide Sorted, Shape, Order, Nodes, IsIndex, TreeOk, NameIsOwn, ScoreMap, Indexed, Logarithmic, HoleDepth,
           Removed, At;
      OwnName(nodes, hs, byName, hashed, node);
      ScoreMapSet(nodes, hs, byName, hashed, KeysOf(nodes), node, score);
      ghost var k := KeysOf(nodes)[node := P(score, node.name)];
      pos, moves := RescoreTree(node, score);
      assert KeysOf(nodes) == k;
      SetScores(scores[node.name := score], k);
    }

    ghost method SetScores(sc: map<Bytes, Score>, k: Keys)
      requires k == KeysOf(nodes) && sc == ScoreMap(byName, k)
      modifies this`scores
      ensures ScoresOk() && scores == sc
    {
      hide ScoreMap;
      scores := sc;
      assert KeysOf(nodes) == k;
    }

    /** Update the score of a node of the set; skip if it is the same. */
    method Update(node: ZNode, score: Score) returns (ghost moves: nat)
      requires Valid() && node in nodes
      modifies this`root, this`tree, this`scores, nodes
      ensures Valid() && scores == old(scores)[node.name := score] && Logarithmic(moves, |nodes|)
      ensures moves == if old(node.score) == score then 0
                       else HoleDepth(Removed(old(tree), node), Below(scores, P(score, node.name)))
    {
      hide TreeOk, Indexed, HMap.Valid, ScoresOk, Logarithmic, HoleDepth, Removed, At, Below;
      moves := 0;
      NoSteps(|nodes|);
      if node.score == score {
        SameScore(node);
      } else {
        ghost var pos;
        pos, moves := RescoreNode(node, score, hmap.Nodes());
        PlaceIsBelow(node, pos);
      }
    }

    /** zset_lookup, in terms of the set as a value. */
    method Find(name: Bytes) returns (r: ZNode?)
      requires Valid()
      modifies this`Repr, hmap.parts, hmap.Nodes()
      ensures Valid() && fresh(Repr - old(Repr)) && scores == old(scores)
      ensures r == null <==> name !in scores
      ensures r != null ==> r in nodes && r.Pair() == P(scores[name], name)
    {
      hide TreeOk, HMap.Valid, Keyed;
      ScoreMapKeys(nodes, hmap.Nodes(), byName, hashed, KeysOf(nodes));
      r := Lookup(name);
    }

    lemma SameScore(node: ZNode)
      requires HashOk() && ScoresOk() && node in nodes
      ensures scores == scores[node.name := node.score]
    {
      ScoreMapSet(nodes, hmap.Nodes(), byName, hashed, KeysOf(nodes), node, node.score);
    }

    /** The score of a name is its node's. */
    lemma ScoreOfName(name: Bytes)
      requires Valid()
      ensures name in scores <==> name in byName
      ensures name in byName ==>
        byName[name] in nodes && byName[name].name == name && scores[name] == byName[name].score
    {
      hide TreeOk, HMap.Valid, Keyed;
      ScoreMapKeys(nodes, hmap.Nodes(), byName, hashed, KeysOf(nodes));
    }

    /** Add a (score, name) pair, or update the score of a name already present. */
    method Insert(name: Bytes, score: Score) returns (added: bool, ghost moves: nat)
      requires Valid()
      modifies Repr
      ensures Valid() && fresh(Repr - old(Repr))
      ensures added == (name !in old(scores)) && scores == old(scores)[name := score]
      ensures Logarithmic(moves, |scores|)
      ensures name !in old(scores) ==> moves == HoleDepth(old(tree), Below(scores, P(score, name)))
      ensures name in old(scores) && old(scores)[name] == score ==> moves == 0
      ensures name in old(scores) && old(scores)[name] != score ==>
        name in old(byName) && moves == HoleDepth(Removed(old(tree), old(byName)[name]), Below(scores, P(score, name)))
    {
      hide TreeOk, HashOk, ScoresOk, Logarithmic, HoleDepth, Removed, Below;
      ScoreOfName(name);
      var node := Lookup(name);
      if node != null {
        moves := Update(node, score);
        added := false;
      } else {
        moves := Add(name, score);
        added := true;
      }
      NodeCount();
    }

    /** hm_insert of the hash node of a new node that the ghost record already holds. */
    method HashInsert(hn: HN)
      requires hmap.Valid() && hn !in hmap.Nodes() && Indexed(nodes, hmap.Nodes() + {hn}, byName, hashed)
      requires this !in hmap.parts && nodes !! hmap.parts && hmap.parts + hmap.Nodes() + {hn} <= Repr
      modifies this`Repr, hmap.parts, hmap.Nodes(), hn
      ensures HashOk() && hmap.parts + hmap.Nodes() <= Repr && old(Repr) <= Repr && fresh(Repr - old(Repr))
      ensures this !in hmap.parts && nodes !! hmap.parts && nodes == old(nodes) && scores == old(scores)
    {
      hide HMap.Valid, Indexed;
      hmap.Insert(hn);
      Repr := Repr + hmap.parts;
    }

    /** Link a node of the set that the tree does not hold yet. */
    method LinkNode(node: ZNode) returns (ghost pos: nat, ghost moves: nat)
      requires HashOk() && node in nodes && nodes !! hmap.parts && TreeLacks(node)
      requires node.left == null && node.right == null
      modifies this`root, this`tree, nodes`parent, nodes`left, nodes`right, nodes`height, nodes`cnt
      ensures TreeOk() && HashOk() && Logarithmic(moves, |nodes|)
      ensures At(Order(tree), pos) == node && moves == HoleDepth(old(tree), pos) && node.Pair() == old(node.Pair())
      ensures nodes == old(nodes) && scores == old(scores) && Repr == old(Repr)
    {
      hide IsIndex, Indexed, HMap.Valid, ScoreMap, NameIsOwn, Logarithmic, HoleDepth, At;
      OwnName(nodes, hmap.Nodes(), byName, hashed, node);
      var r;
      ghost var t;
      r, t, pos, moves := AddNode(root, node, tree, nodes);
      assert HashOk();
      SetTree(r, t);
    }

    /** Enter a new node in the ghost record, leaving the tree and the hash map for later. */
    method Register(node: ZNode) returns (hn: HN)
      requires Valid() && node !in Repr && node.name !in byName
      modifies this`Repr, this`nodes, this`byName, this`hashed, this`scores
      ensures hmap.Valid() && hn !in hmap.Nodes() && Indexed(nodes, hmap.Nodes() + {hn}, byName, hashed)
      ensures fresh(hn) && nodes == old(nodes) + {node} && Repr == old(Repr) + {node, hn}
      ensures TreeLacks(node)
      ensures ScoresOk() && scores == old(scores)[node.name := node.score]
    {
      hide IsIndex, Indexed, HMap.Valid, ScoreMap, TreeOk;
      var hcode := ComputeHash(node.name);
      hn := new HNode(hcode, node.name, node);
      TreeNodes();
      IndexAdd(nodes, hmap.Nodes(), byName, hashed, node, hn);
      ScoreMapAdd(nodes, hmap.Nodes(), byName, hashed, KeysOf(nodes), node, KeysOf(nodes + {node}));
      Enlist(nodes + {node}, byName[node.name := node], hashed[node.name := hn], scores[node.name := node.score],
             Mem(nodes), KeysOf(nodes), Repr + {node, hn});
    }

    /** Change the ghost record; the tree, described over the old nodes, is described over the new ones. */
    ghost method Enlist(ns: set<ZNode>, bn: map<Bytes, ZNode>, hs: map<Bytes, HN>, sc: map<Bytes, Score>, m: Memory,
                        k: Keys, r: set<object>)
      requires IsIndex(root, tree, m, k) && sc == ScoreMap(bn, KeysOf(ns))
      requires forall n <- Nodes(tree) :: n in ns && (n in m ==> m[n] == n.Links()) && (n in k ==> k[n] == n.Pair())
      modifies this`nodes, this`byName, this`hashed, this`scores, this`Repr
      ensures nodes == ns && byName == bn && hashed == hs && scores == sc && Repr == r
      ensures IsIndex(root, tree, Mem(nodes), KeysOf(nodes)) && ScoresOk()
    {
      hide IsIndex, ScoreMap;
      ghost var kk := KeysOf(ns);
      nodes, byName, hashed, scores, Repr := ns, bn, hs, sc, r;
      assert KeysOf(nodes) == kk;
      IndexFrame(root, tree, m, k, Mem(nodes), KeysOf(nodes));
    }

    /** A new node, entered in the hash map and the ghost record, not yet in the tree. */
    method Enter(name: Bytes, score: Score) returns (node: ZNode)
      requires Valid() && name !in byName
      modifies Repr
      ensures this in Repr && nodes <= Repr && hmap.parts + hmap.Nodes() <= Repr && fresh(Repr - old(Repr))
      ensures this !in hmap.parts && nodes !! hmap.parts && node in nodes && node.left == null && node.right == null
      ensures HashOk() && ScoresOk() && TreeLacks(node) && scores == old(scores)[name := score]
      ensures tree == old(tree) && node.Pair() == P(score, name)
    {
      hide TreeLacks, TreeOk, Indexed, HMap.Valid, ScoresOk;
      node := new ZNode(name, score);
      var hn := Register(node);
      HashInsert(hn);
    }

    /** A new node, linked into both indexes. */
    method Add(name: Bytes, score: Score) returns (ghost moves: nat)
      requires Valid() && name !in byName
      modifies Repr
      ensures Valid() && fresh(Repr - old(Repr))
      ensures scores == old(scores)[name := score] && Logarithmic(moves, |nodes|)
      ensures moves == HoleDepth(old(tree), Below(scores, P(score, name)))
    {
      hide TreeLacks, TreeOk, HashOk, ScoresOk, Logarithmic, HoleDepth, At, Below;
      var node := Enter(name, score);
      ghost var pos;
      pos, moves := LinkNode(node);
      PlaceIsBelow(node, pos);
    }

    lemma TreeNodes()
      requires TreeOk()
      ensures IsIndex(root, tree, Mem(nodes), KeysOf(nodes)) && Nodes(tree) == nodes
    {
    }

    /** hm_delete by the node's own name: what comes out is the node's own hash node. */
    method HashRemove(node: ZNode)
      requires Valid() && node in nodes
      modifies this`Repr, hmap.parts, hmap.Nodes()
      ensures hmap.Valid() && node.name in byName && byName[node.name] == node
      ensures Indexed(nodes - {node}, hmap.Nodes(), byName - {node.name}, hashed - {node.name})
      ensures hmap.parts + hmap.Nodes() <= Repr && old(Repr) <= Repr && fresh(Repr - old(Repr))
      ensures this !in hmap.parts && nodes !! hmap.parts
    {
      hide TreeOk, HMap.Valid, StrHash, ScoresOk, NameIsOwn, Indexed;
      OwnName(nodes, hmap.Nodes(), byName, hashed, node);
      var hcode := ComputeHash(node.name);
      IndexLookup(nodes, hmap.Nodes(), byName, hashed, node.name);
      IndexRemove(nodes, hmap.Nodes(), byName, hashed, node);
      var found := hmap.Delete(hcode, (x: HN) => x.key == node.name);
      assert found != null && found == hashed[node.name] && found.owner == node;
      Repr := Repr + hmap.parts;
    }

    /** The same, with what it leaves alone: the tree still links the node. */
    method GiveUp(node: ZNode)
      requires Valid() && node in nodes
      modifies this`Repr, hmap.parts, hmap.Nodes()
      ensures hmap.Valid() && node.name in byName && byName[node.name] == node
      ensures Indexed(nodes - {node}, hmap.Nodes(), byName - {node.name}, hashed - {node.name})
      ensures hmap.parts + hmap.Nodes() <= Repr && old(Repr) <= Repr && fresh(Repr - old(Repr))
      ensures this !in hmap.parts && nodes !! hmap.parts
      ensures TreeOk() && ScoresOk()
    {
      hide IsIndex, HMap.Valid, ScoreMap, Indexed;
      HashRemove(node);
    }

    /** zset_delete: take a node out of both indexes. */
    method Delete(node: ZNode)
      requires Valid() && node in nodes
      modifies Repr
      ensures Valid() && fresh(Repr - old(Repr))
      ensures scores == old(scores) - {node.name} && nodes == old(nodes) - {node}
    {
      hide IsIndex, Indexed, HMap.Valid, TreeOk, ScoresOk;
      GiveUp(node);
      TreeNodes();
      UnlinkNode(node, hmap.Nodes());
    }

    /** avl_del on the set's own tree. */
    method UnlinkTree(node: ZNode)
      requires IsIndex(root, tree, Mem(nodes), KeysOf(nodes)) && Nodes(tree) == nodes && node in nodes
      modifies this`root, this`tree, nodes`parent, nodes`left, nodes`right, nodes`height, nodes`cnt
      ensures IsIndex(root, tree, Mem(nodes), KeysOf(nodes)) && Nodes(tree) == nodes - {node}
    {
      hide IsIndex;
      var r;
      ghost var t;
      r, t := RemoveNode(root, node, tree, nodes);
      SetTree(r, t);
    }

    /** Take a node that the hash map has already given up out of the tree and the ghost record. */
    method UnlinkNode(node: ZNode, ghost hs: set<HN>)
      requires ScoresOk() && IsIndex(root, tree, Mem(nodes), KeysOf(nodes)) && Nodes(tree) == nodes && node in nodes
      requires node.name in byName && byName[node.name] == node
      requires Indexed(nodes - {node}, hs, byName - {node.name}, hashed - {node.name})
      modifies this`root, this`tree, this`nodes, this`byName, this`hashed, this`scores, this`Repr, nodes`parent,
          nodes`left, nodes`right, nodes`height, nodes`cnt
      ensures TreeOk() && ScoresOk() && Indexed(nodes, hs, byName, hashed)
      ensures nodes == old(nodes) - {node} && scores == old(scores) - {node.name} && Repr == old(Repr)
    {
      hide Sorted, Shape, Order, Nodes, Keyed, IsIndex, Indexed, ScoreMap;
      ghost var k := KeysOf(nodes - {node});
      ScoreMapRemove(nodes, hs, byName, hashed, KeysOf(nodes), node, k);
      UnlinkTree(node);
      assert KeysOf(nodes - {node}) == k;
      Enlist(nodes - {node}, byName - {node.name}, hashed - {node.name}, scores - {node.name}, Mem(nodes),
          KeysOf(nodes), Repr);
    }

    /** Free every node of the tree, and forget the root. */
    method DisposeTree() returns (freed: seq<ZNode>)
      requires TreeOk()
      modifies this`root
      ensures root == null && NoDup(freed) && Elems(freed) == nodes
    {
      hide Balanced, Sorted;
      AvlDispose.PostOrderOnce(tree);
      freed := AvlDispose.Dispose(root, tree, null, nodes);
      root := null;
    }

    /** The ghost record of a set without nodes. */
    ghost method Forget()
      requires root == null
      modifies this`tree, this`nodes, this`byName, this`hashed, this`scores
      ensures TreeOk() && ScoresOk() && Indexed(nodes, {}, byName, hashed) && nodes == {} && scores == map[]
    {
      tree, nodes, byName, hashed, scores := Nil, {}, map[], map[], map[];
    }

    /** The hash map counts the names. */
    lemma {:induction false} SizeIsCount()
      requires Valid()
      ensures hmap.Size() == |scores|
    {
      hide HMap.Valid, TreeOk, Keyed;
      hmap.SizeIsCount();
      KeyedCount(hmap.Nodes(), byName, hashed);
      ScoreMapKeys(nodes, hmap.Nodes(), byName, hashed, KeysOf(nodes));
      assert |scores| == |scores.Keys| && |byName| == |byName.Keys|;
    }

    /** zset_clear: an empty set, every node of the old one freed exactly once. */
    method Clear() returns (freed: seq<ZNode>)
      requires Valid()
      modifies this, hmap
      ensures Valid() && scores == map[] && fresh(Repr - old(Repr))
      ensures NoDup(freed) && Elems(freed) == old(nodes)
    {
      hide HMap.Valid, TreeOk, ScoresOk, Indexed;
      hmap.Clear();
      freed := DisposeTree();
      Forget();
      Repr := Repr + hmap.parts;
    }

    // ----- order -----

    lemma InOrder()
      requires Valid()
      ensures Carries(Order(tree), KeysOf(nodes), Ordered(scores)) && Elems(Order(tree)) == nodes
      ensures |Order(tree)| == |scores| && Lists(Ordered(scores), scores)
    {
      hide Carries, Indexed, HMap.Valid;
      NodesAreOrder(tree);
      TreeListsScores(nodes, hmap.Nodes(), byName, hashed, KeysOf(nodes), Order(tree));
      OrderedLists(scores);
      ListLength(Ordered(scores), scores);
      assert |Order(tree)| == |Ordered(scores)| by { CarriesLength(Order(tree), KeysOf(nodes), Ordered(scores)); }
    }

    lemma CarriesLength(s: seq<ZNode>, k: Keys, o: seq<Pair>)
      requires Carries(s, k, o)
      ensures |s| == |o|
    {
    }

    /** As many nodes as names. */
    lemma NodeCount()
      requires Valid()
      ensures |nodes| == |scores| && C(tree) == |scores| && Balanced(tree)
    {
      hide Carries, Indexed, HMap.Valid, Sorted, Shape, Ordered, ScoreMap;
      InOrder();
      CountIsSize(tree);
      CountIsLength(tree);
    }

    /** Steps within the height of the tree. */
    lemma StepsInHeight(steps: nat)
      requires Valid() && steps <= H(tree)
      ensures Logarithmic(steps, |scores|)
    {
      hide Valid;
      NodeCount();
      HeightIsLogarithmic(tree, steps);
    }

    /** The place of a node in the tree is the number of smaller pairs. */
    lemma PlaceIsBelow(node: ZNode, pos: nat)
      requires Valid() && At(Order(tree), pos) == node
      ensures pos == Below(scores, node.Pair())
    {
      hide Indexed, HMap.Valid, TreeOk, Ordered, ScoreMap, Below;
      InOrder();
      RankIsPosition(Ordered(scores), scores, pos);
    }

    /** znode_rank: the number of pairs less than the node's own. */
    method Rank(node: ZNode) returns (rank: nat, ghost moves: nat)
      requires Valid() && node in nodes
      ensures rank == Below(scores, node.Pair())
      ensures rank < |Ordered(scores)| && Ordered(scores)[rank] == node.Pair()
      ensures moves == DepthAt(tree, rank) && Logarithmic(moves, |scores|)
    {
      hide Lists, DepthAt, Indexed, HMap.Valid, Sorted, Shape, Ordered, ScoreMap, Logarithmic, H, Below;
      InOrder();
      rank, moves := AvlSearch.Rank(node, tree, nodes);
      StepsInHeight(moves);
      RankIsPosition(Ordered(scores), scores, rank);
    }

    /** zset_seek_ge: the first pair not less than p, if there is one. */
    method SeekGe(p: Pair) returns (r: ZNode?, ghost moves: nat)
      requires Valid()
      ensures Below(scores, p) <= |Ordered(scores)|
      ensures r == null <==> Below(scores, p) == |Ordered(scores)|
      ensures r != null ==> r in nodes && r.Pair() == Ordered(scores)[Below(scores, p)]
      ensures moves == HoleDepth(tree, Below(scores, p)) && Logarithmic(moves, |scores|)
    {
      hide Indexed, HMap.Valid, Sorted, Shape, Ordered, ScoreMap, HoleDepth;
      InOrder();
      ghost var pos;
      r, pos, moves := AvlSearch.SeekGe(root, p, tree, nodes);
      StepsInHeight(moves);
      BelowIsPosition(Ordered(scores), scores, p, pos);
    }

    /** A node stands in the tree at the place its rank names. */
    lemma AtRank(node: ZNode)
      requires Valid() && node in nodes
      ensures Below(scores, node.Pair()) < |Order(tree)| && Order(tree)[Below(scores, node.Pair())] == node
    {
      hide Indexed, HMap.Valid, TreeOk, Ordered, ScoreMap;
      InOrder();
      var pos :| 0 <= pos < |Order(tree)| && Order(tree)[pos] == node;
      RankIsPosition(Ordered(scores), scores, pos);
    }

    /** The node at a place of the tree carries the pair at that place of the listing. */
    lemma AtPlace(q: int)
      requires Valid()
      ensures At(Order(tree), q) == null <==> !(0 <= q < |Ordered(scores)|)
      ensures At(Order(tree), q) != null ==>
                At(Order(tree), q) in nodes && At(Order(tree), q).Pair() == Ordered(scores)[q]
    {
      hide Indexed, HMap.Valid, TreeOk, Ordered, ScoreMap;
      InOrder();
      assert 0 <= q < |Order(tree)| ==> Order(tree)[q] in Elems(Order(tree));
    }

    /** znode_offset: the node a number of places away, or null when there is none. */
    method Offset(node: ZNode?, offset: int) returns (r: ZNode?, ghost moves: nat)
      requires Valid() && (node != null ==> node in nodes)
      ensures node == null ==> r == null
      ensures node != null ==>
        var q, o := Below(scores, node.Pair()) + offset, Ordered(scores);
        && (r == null <==> !(0 <= q < |o|))
        && (r != null ==> r in nodes && r.Pair() == o[q])
      ensures node != null ==>
        var p := Below(scores, node.Pair());
        moves == if r == null then DepthAt(tree, p) else Distance(tree, p, p + offset)
      ensures Logarithmic(moves / 2, |scores|)
    {
      hide Indexed, HMap.Valid, Sorted, Shape, Ordered, Below, At, ScoreMap, Logarithmic, H, DepthAt, Distance;
      r, moves := null, 0;
      if node != null {
        ghost var pos := Below(scores, node.Pair());
        AtRank(node);
        AtPlace(pos + offset);
        r, moves := AvlSearch.Offset(node, offset, tree, nodes, pos);
      }
      StepsInHeight(moves / 2);
    }
  }
}
