/**
 * The chained hash table: slots, chains, and one table of them.
 */
module HashTable {
  import opened Names
  import opened Seqs

  /** An intrusive hash node; owner is what container_of yields, key what the equality callback reads. */
  class HNode<V> {
    var next: HNode?<V>
    const hcode: nat
    const key: Bytes
    const owner: V

    constructor (hcode: nat, key: Bytes, owner: V)
      ensures this.hcode == hcode && this.key == key && this.owner == owner
    {
      this.hcode, this.key, this.owner, next := hcode, key, owner, null;
    }
  }

  // ----- slots -----

  ghost predicate IsPow2(n: nat) { n == 1 || (n > 1 && n % 2 == 0 && IsPow2(n / 2)) }

  lemma Pow2Double(n: nat)
    requires IsPow2(n)
    ensures IsPow2(2 * n)
  {
  }

  /** Bitwise and of two numbers. */
  function BitAnd(a: nat, b: nat): nat {
    if a == 0 || b == 0 then 0 else (if a % 2 == 1 && b % 2 == 1 then 1 else 0) + 2 * BitAnd(a / 2, b / 2)
  }

  /** Masking with a power of two less one is the remainder. */
  lemma {:induction false} MaskIsRemainder(a: nat, n: nat)
    requires IsPow2(n)
    ensures BitAnd(a, n - 1) == a % n
  {
    if n > 1 {
      var h := n / 2;
      MaskIsRemainder(a / 2, h);
      HalfRemainder(a, h);
      MaskStep(a, h);
    }
  }

  lemma MaskStep(a: nat, h: nat)
    requires h > 0
    ensures BitAnd(a, 2 * h - 1) == a % 2 + 2 * BitAnd(a / 2, h - 1)
  {
  }

  lemma HalfRemainder(a: nat, h: nat)
    requires h > 0
    ensures a % (2 * h) == a % 2 + 2 * ((a / 2) % h)
  {
    var b, q := a / 2, (a / 2) / h;
    var r := b % h;
    assert b == q * h + r;
    assert a == q * (2 * h) + (2 * r + a % 2);
    Remainder(a, 2 * h, q, 2 * r + a % 2);
  }

  lemma Remainder(a: nat, n: nat, q: nat, r: nat)
    requires n > 0 && a == q * n + r && r < n
    ensures a % n == r
  {
    assert a / n == q by { assert q * n <= a < q * n + n; QuotientUnique(a, n, q); }
  }

  lemma QuotientUnique(a: nat, n: nat, q: nat)
    requires n > 0 && q * n <= a < q * n + n
    ensures a / n == q
  {
    var d := a / n;
    MulMono(d + 1, q, n);
    MulMono(q + 1, d, n);
  }

  lemma MulMono(a: nat, b: nat, n: nat)
    ensures a <= b ==> a * n <= b * n
  {
  }

  // ----- chains as values -----

  /** Element j of a chain, or null past its end. */
  ghost function Elem<V>(c: seq<HNode<V>>, j: nat): HNode?<V> { if j < |c| then c[j] else null }

  /** From head h the next links nx spell out the chain c. */
  ghost predicate ChainOf<V>(h: HNode?<V>, c: seq<HNode<V>>, nx: map<HNode<V>, HNode?<V>>) {
    h == Elem(c, 0) && forall j :: 0 <= j < |c| ==> c[j] in nx && nx[c[j]] == Elem(c, j + 1)
  }

  ghost predicate Chained<V>(heads: seq<HNode?<V>>, chains: seq<seq<HNode<V>>>, nx: map<HNode<V>, HNode?<V>>) {
    |heads| == |chains| && forall i :: 0 <= i < |chains| ==> ChainOf(heads[i], chains[i], nx)
  }

  /** The nodes of one slot: each once, all with hash codes that select it. */
  ghost predicate SlotOk<V>(c: seq<HNode<V>>, i: nat, n: nat, nodes: set<HNode<V>>)
    requires n > 0
  {
    NoDup(c) && forall x <- c :: x in nodes && x.hcode % n == i
  }

  /** Every node of the table sits once, in the chain that its hash code selects. */
  ghost predicate Bucketed<V>(chains: seq<seq<HNode<V>>>, nodes: set<HNode<V>>) {
    && |chains| > 0
    && (forall i :: 0 <= i < |chains| ==> SlotOk(chains[i], i, |chains|, nodes))
    && (forall x <- nodes :: x in chains[x.hcode % |chains|])
  }

  ghost function Push<V>(chains: seq<seq<HNode<V>>>, x: HNode<V>): (r: seq<seq<HNode<V>>>)
    requires |chains| > 0
    ensures |r| == |chains|
  {
    chains[x.hcode % |chains| := [x] + chains[x.hcode % |chains|]]
  }

  lemma PushBucketed<V>(chains: seq<seq<HNode<V>>>, nodes: set<HNode<V>>, x: HNode<V>)
    requires Bucketed(chains, nodes) && x !in nodes
    ensures Bucketed(Push(chains, x), nodes + {x})
  {
  }

  /** Slot i now has head h and chain c; the other chains' links have not changed. */
  lemma SlotChained<V>(heads: seq<HNode?<V>>, chains: seq<seq<HNode<V>>>, nx: map<HNode<V>, HNode?<V>>, i: nat,
                       h: HNode?<V>, c: seq<HNode<V>>, nx': map<HNode<V>, HNode?<V>>)
    requires Chained(heads, chains, nx) && i < |chains| && ChainOf(h, c, nx')
    requires forall k, x :: 0 <= k < |chains| && k != i && x in chains[k] && x in nx ==> x in nx' && nx'[x] == nx[x]
    ensures Chained(heads[i := h], chains[i := c], nx')
  {
  }

  lemma PushChained<V>(heads: seq<HNode?<V>>, chains: seq<seq<HNode<V>>>, nodes: set<HNode<V>>,
                       nx: map<HNode<V>, HNode?<V>>, nx': map<HNode<V>, HNode?<V>>, x: HNode<V>)
    requires Bucketed(chains, nodes) && Chained(heads, chains, nx) && x !in nodes
    requires x in nx' && nx'[x] == heads[x.hcode % |chains|]
    requires forall y <- nodes :: y in nx ==> y in nx' && nx'[y] == nx[y]
    ensures Chained(heads[x.hcode % |chains| := x], Push(chains, x), nx')
  {
    var i, n := x.hcode % |chains|, |chains|;
    var tail, c := chains[i], [x] + chains[i];
    assert SlotOk(tail, i, n, nodes) && ChainOf(heads[i], tail, nx);
    forall j | 0 <= j < |c| ensures c[j] in nx' && nx'[c[j]] == Elem(c, j + 1) {
      if j > 0 { assert c[j] == tail[j - 1] && Elem(c, j + 1) == Elem(tail, j); }
    }
    forall k, y | 0 <= k < n && k != i && y in chains[k] && y in nx ensures y in nx' && nx'[y] == nx[y] {
      assert SlotOk(chains[k], k, n, nodes);
    }
    SlotChained(heads, chains, nx, i, x, c, nx');
  }

  ghost function Cut<V>(chains: seq<seq<HNode<V>>>, i: nat, j: nat): seq<seq<HNode<V>>>
    requires i < |chains| && j < |chains[i]|
  {
    chains[i := chains[i][..j] + chains[i][j + 1..]]
  }

  lemma CutBucketed<V>(chains: seq<seq<HNode<V>>>, nodes: set<HNode<V>>, i: nat, j: nat)
    requires Bucketed(chains, nodes) && i < |chains| && j < |chains[i]|
    ensures chains[i][j] in nodes
    ensures Bucketed(Cut(chains, i, j), nodes - {chains[i][j]})
  {
  }

  /** The links of a chain once element j is bypassed: its predecessor, if any, points past it. */
  ghost predicate Bypass<V>(c: seq<HNode<V>>, j: nat, nx: map<HNode<V>, HNode?<V>>, nx': map<HNode<V>, HNode?<V>>)
    requires j < |c| && c[j] in nx
  {
    && (j > 0 ==> c[j - 1] in nx' && nx'[c[j - 1]] == nx[c[j]])
    && (forall x <- nx :: x != c[j] && (j > 0 ==> x != c[j - 1]) ==> x in nx' && nx'[x] == nx[x])
  }

  lemma CutChain<V>(h: HNode?<V>, c: seq<HNode<V>>, j: nat, nx: map<HNode<V>, HNode?<V>>, nx': map<HNode<V>, HNode?<V>>)
    requires ChainOf(h, c, nx) && NoDup(c) && j < |c| && c[j] in nx && Bypass(c, j, nx, nx')
    ensures ChainOf(if j == 0 then nx[c[0]] else h, c[..j] + c[j + 1..], nx')
  {
  }

  lemma CutChained<V>(heads: seq<HNode?<V>>, chains: seq<seq<HNode<V>>>, nodes: set<HNode<V>>,
                      nx: map<HNode<V>, HNode?<V>>, nx': map<HNode<V>, HNode?<V>>, i: nat, j: nat)
    requires Bucketed(chains, nodes) && Chained(heads, chains, nx) && i < |chains| && j < |chains[i]|
    requires chains[i][j] in nx && Bypass(chains[i], j, nx, nx')
    ensures Chained(heads[i := if j == 0 then nx[chains[i][0]] else heads[i]], Cut(chains, i, j), nx')
  {
    var c, n := chains[i], |chains|;
    assert SlotOk(c, i, n, nodes) && ChainOf(heads[i], c, nx);
    CutChain(heads[i], c, j, nx, nx');
    forall k, y | 0 <= k < n && k != i && y in chains[k] && y in nx ensures y in nx' && nx'[y] == nx[y] {
      assert SlotOk(chains[k], k, n, nodes);
      assert j > 0 ==> c[j - 1] in c;
    }
    SlotChained(heads, chains, nx, i, if j == 0 then nx[c[0]] else heads[i], c[..j] + c[j + 1..], nx');
  }

  /** The link that leads to element j of slot i, and the one that leaves it. */
  lemma LinkAt<V>(heads: seq<HNode?<V>>, chains: seq<seq<HNode<V>>>, nodes: set<HNode<V>>, nx: map<HNode<V>, HNode?<V>>,
                  i: nat, j: nat)
    requires Bucketed(chains, nodes) && Chained(heads, chains, nx) && i < |chains| && j <= |chains[i]|
    ensures if j == 0 then heads[i] == Elem(chains[i], 0)
            else var p := chains[i][j - 1]; p in nodes && p in nx && nx[p] == Elem(chains[i], j)
    ensures j < |chains[i]| ==> chains[i][j] in nodes && chains[i][j] in nx
    ensures j < |chains[i]| && j > 0 ==> chains[i][j - 1] != chains[i][j]
  {
  }

  /** Slot by slot, the chains list the nodes of the slots below k, each once. */
  lemma {:induction false} FlattenBucketed<V>(chains: seq<seq<HNode<V>>>, nodes: set<HNode<V>>, k: nat)
    requires Bucketed(chains, nodes) && k <= |chains|
    ensures NoDup(Flatten(chains[..k]))
    ensures Elems(Flatten(chains[..k])) == set x | x in nodes && x.hcode % |chains| < k
  {
    if k > 0 {
      FlattenBucketed(chains, nodes, k - 1);
      var a, c := Flatten(chains[..k - 1]), chains[k - 1];
      assert chains[..k][..k - 1] == chains[..k - 1];
      assert SlotOk(c, k - 1, |chains|, nodes);
      ElemsConcat(a, c);
      forall x <- nodes | x.hcode % |chains| == k - 1 ensures x in Elems(c) { assert x in chains[x.hcode % |chains|]; }
      NoDupAppend(a, c);
    }
  }

  /** A search that matches nothing in its slot has missed nothing in the table. */
  lemma SlotMiss<V>(chains: seq<seq<HNode<V>>>, nodes: set<HNode<V>>, hcode: nat, eq: HNode<V> -> bool)
    requires Bucketed(chains, nodes)
    requires var c := chains[hcode % |chains|]; forall k :: 0 <= k < |c| ==> !(c[k].hcode == hcode && eq(c[k]))
    ensures forall x <- nodes :: !(x.hcode == hcode && eq(x))
  {
  }

  /** Part of the way along slot i, the nodes listed so far are still different nodes of the table. */
  lemma FlattenPart<V>(chains: seq<seq<HNode<V>>>, nodes: set<HNode<V>>, i: nat, j: nat)
    requires Bucketed(chains, nodes) && i < |chains| && j <= |chains[i]|
    ensures var part := Flatten(chains[..i]) + chains[i][..j]; NoDup(part) && Elems(part) <= nodes
  {
    var part, whole := Flatten(chains[..i]) + chains[i][..j], Flatten(chains[..i + 1]);
    FlattenBucketed(chains, nodes, i + 1);
    assert chains[..i + 1][..i] == chains[..i];
    assert whole == part + chains[i][j..];
    assert forall k | 0 <= k < |part| :: part[k] == whole[k];
    forall x <- part ensures x in nodes { assert x in Elems(whole); }
  }

  /** The callback allowed every visited node but possibly the last, which then ended the visit. */
  ghost predicate VisitedUntil<V>(visited: seq<HNode<V>>, all: bool, cb: HNode<V> -> bool) {
    && (all ==> forall x <- visited :: cb(x))
    && (!all ==> visited != [] && !cb(visited[|visited| - 1]) && forall i | 0 <= i < |visited| - 1 :: cb(visited[i]))
  }

  // ----- one table -----

  /** A table of chains; with tab == null it is empty and has no slots. */
  class HTab<V> {
    var tab: array?<HNode?<V>>
    var mask: nat
    var size: nat
    ghost var chains: seq<seq<HNode<V>>>
    ghost var nodes: set<HNode<V>>

    ghost function Nexts(): map<HNode<V>, HNode?<V>>
      reads this`nodes, nodes
    {
      map n | n in nodes :: n.next
    }

    ghost predicate Valid()
      reads this, tab, nodes
      ensures Valid() ==> size == |nodes|
      ensures Valid() && tab == null ==> mask == 0 && nodes == {} && chains == []
      ensures Valid() && tab != null ==> tab.Length == mask + 1 == |chains| && IsPow2(mask + 1)
    {
      && size == |nodes|
      && (tab == null ==> mask == 0 && nodes == {} && chains == [])
      && (tab != null ==>
           && tab.Length == mask + 1 == |chains| && IsPow2(mask + 1)
           && Bucketed(chains, nodes) && Chained(tab[..], chains, Nexts()))
    }

    /** HTab{} */
    constructor Empty()
      ensures Valid() && tab == null && nodes == {}
    {
      tab, mask, size := null, 0, 0;
      chains, nodes := [], {};
    }

    /** htab_init */
    constructor (n: nat)
      requires IsPow2(n)
      ensures Valid() && tab != null && fresh(tab) && mask == n - 1 && nodes == {}
    {
      tab := new HNode?<V>[n](_ => null);
      mask := n - 1;
      size := 0;
      chains, nodes := seq(n, _ => []), {};
    }

    /** htab_idx: masking selects the remainder. */
    method Index(hcode: nat) returns (pos: nat)
      requires IsPow2(mask + 1)
      ensures pos == hcode % (mask + 1)
    {
      MaskIsRemainder(hcode, mask + 1);
      pos := BitAnd(hcode, mask);
    }

    /** Insert at the front of the chain. */
    method Insert(node: HNode<V>)
      requires Valid() && tab != null && node !in nodes
      modifies this, tab, node
      ensures Valid() && nodes == old(nodes) + {node} && size == old(size) + 1
      ensures tab == old(tab) && mask == old(mask)
      ensures chains == Push(old(chains), node)
    {
      hide Bucketed, Chained, IsPow2, Push;
      ghost var heads := tab[..];
      LinkFirst(node);
      size := size + 1;
      Record(node, heads);
    }

    /** The node becomes the head of its slot. */
    method LinkFirst(node: HNode<V>)
      requires tab != null && tab.Length == mask + 1 && IsPow2(mask + 1) && node !in nodes
      modifies tab, node
      ensures tab[..] == old(tab[..])[node.hcode % (mask + 1) := node]
      ensures node.next == old(tab[..])[node.hcode % (mask + 1)]
    {
      hide IsPow2;
      var t := tab;
      var pos := Index(node.hcode);
      node.next := t[pos];
      t[pos] := node;
    }

    /** The ghost record of a node that has been linked in front of its slot. */
    ghost method Record(node: HNode<V>, heads: seq<HNode?<V>>)
      requires tab != null && tab.Length == mask + 1 == |chains| && IsPow2(mask + 1) && node !in nodes
      requires size == |nodes| + 1 && Bucketed(chains, nodes) && Chained(heads, chains, Nexts())
      requires |heads| == mask + 1 && tab[..] == heads[node.hcode % (mask + 1) := node]
      requires node.next == heads[node.hcode % (mask + 1)]
      modifies this`chains, this`nodes
      ensures Valid() && nodes == old(nodes) + {node} && chains == Push(old(chains), node)
    {
      hide Bucketed, Chained, IsPow2, Push;
      ghost var nx, more := Nexts(), Push(chains, node);
      ghost var nx' := nx[node := node.next];
      PushBucketed(chains, nodes, node);
      PushChained(heads, chains, nodes, nx, nx', node);
      SameSlots(chains, node);
      assert tab[..] == heads[node.hcode % |chains| := node];
      Set(more, nodes + {node}, nx');
    }

    lemma SameSlots(chains: seq<seq<HNode<V>>>, x: HNode<V>)
      requires chains != []
      ensures |Push(chains, x)| == |chains|
    {
    }

    /** Change the record of chains and nodes. */
    ghost method Set(cs: seq<seq<HNode<V>>>, ns: set<HNode<V>>, nx: map<HNode<V>, HNode?<V>>)
      requires tab != null && tab.Length == mask + 1 == |cs| && IsPow2(mask + 1) && size == |ns|
      requires Bucketed(cs, ns) && Chained(tab[..], cs, nx) && nx.Keys == ns && forall n <- ns :: nx[n] == n.next
      modifies this`chains, this`nodes
      ensures Valid() && nodes == ns && chains == cs
    {
      hide Bucketed, Chained, IsPow2;
      chains, nodes := cs, ns;
      assert Nexts() == nx;
    }

    /** htab_lookup: the first node of the slot that matches, with the link that leads to it. */
    method Lookup(hcode: nat, eq: HNode<V> -> bool)
      returns (pos: nat, prev: HNode?<V>, found: HNode?<V>, ghost j: nat)
      requires Valid()
      ensures found == null ==> forall x <- nodes :: !(x.hcode == hcode && eq(x))
      ensures found != null ==> found in nodes && found.hcode == hcode && eq(found)
      ensures found != null ==> tab != null && IsLink(pos, prev, j) && chains[pos][j] == found
    {
      hide Bucketed, Chained, IsPow2;
      pos, prev, found, j := 0, null, null, 0;
      if tab == null {
        return;
      }
      pos := Index(hcode);
      ghost var c := chains[pos];
      LinkAt(tab[..], chains, nodes, Nexts(), pos, 0);
      var curr := tab[pos];
      while curr != null
        invariant j <= |c| && curr == Elem(c, j) && prev == if j == 0 then null else c[j - 1]
        invariant curr != null ==> curr in nodes
        invariant forall k :: 0 <= k < j ==> !(c[k].hcode == hcode && eq(c[k]))
        decreases |c| - j
      {
        if curr.hcode == hcode && eq(curr) {
          found := curr;
          return;
        }
        LinkAt(tab[..], chains, nodes, Nexts(), pos, j + 1);
        prev := curr;
        curr := curr.next;
        j := j + 1;
      }
      SlotMiss(chains, nodes, hcode, eq);
    }

    /** prev is the node before position j of chain pos, or null when the slot itself holds the link. */
    ghost predicate IsLink(pos: nat, prev: HNode?<V>, j: nat)
      reads this
    {
      && pos < |chains| && j < |chains[pos]|
      && prev == if j == 0 then null else chains[pos][j - 1]
    }

    /** htab_detach: unlink the node that the given link leads to. */
    method Detach(pos: nat, prev: HNode?<V>, ghost j: nat) returns (target: HNode<V>)
      requires Valid() && tab != null && IsLink(pos, prev, j)
      modifies this, tab, nodes
      ensures Valid() && target == old(chains)[pos][j] && target in old(nodes)
      ensures nodes == old(nodes) - {target} && size == old(size) - 1
      ensures tab == old(tab) && mask == old(mask) && chains == Cut(old(chains), pos, j)
    {
      hide Bucketed, Chained, IsPow2;
      ghost var heads, nx, chains0, nodes0 := tab[..], Nexts(), chains, nodes;
      ghost var c := chains[pos];
      LinkAt(heads, chains, nodes, nx, pos, j);
      CutBucketed(chains, nodes, pos, j);
      var t := tab;
      if prev == null {
        target := t[pos];
        t[pos] := target.next;
      } else {
        target := prev.next;
        prev.next := target.next;
      }
      assert target == c[j];
      size := size - 1;
      chains := Cut(chains, pos, j);
      nodes := nodes - {target};
      assert tab[..] == heads[pos := if j == 0 then nx[c[0]] else heads[pos]];
      CutChained(heads, chains0, nodes0, nx, Nexts(), pos, j);
    }

    /** The state of one slot: its first node, or none at all that the slot's index selects. */
    lemma AtSlot(i: nat)
      requires Valid() && tab != null && i <= mask
      ensures tab[i] == null ==> forall x <- nodes :: x.hcode % (mask + 1) != i
      ensures tab[i] != null ==> IsLink(i, null, 0) && tab[i] == chains[i][0]
    {
    }

    /** htab_foreach: visit slot by slot and along each chain, until the callback says stop. */
    method ForEach(cb: HNode<V> -> bool) returns (visited: seq<HNode<V>>, all: bool)
      requires Valid() && (tab != null ==> mask != 0)
      ensures NoDup(visited) && Elems(visited) <= nodes && (all ==> Elems(visited) == nodes)
      ensures VisitedUntil(visited, all, cb)
    {
      hide Bucketed, Chained, IsPow2;
      visited, all := [], true;
      if mask == 0 {
        return;
      }
      var i := 0;
      while i <= mask
        invariant i <= mask + 1 && visited == Flatten(chains[..i]) && VisitedUntil(visited, true, cb)
      {
        ghost var c, j := chains[i], 0;
        LinkAt(tab[..], chains, nodes, Nexts(), i, 0);
        var node := tab[i];
        while node != null
          invariant j <= |c| && node == Elem(c, j) && (node != null ==> node in nodes)
          invariant visited == Flatten(chains[..i]) + c[..j] && VisitedUntil(visited, true, cb)
          decreases |c| - j
        {
          LinkAt(tab[..], chains, nodes, Nexts(), i, j + 1);
          visited := visited + [node];
          assert visited == Flatten(chains[..i]) + c[..j + 1];
          if !cb(node) {
            FlattenPart(chains, nodes, i, j + 1);
            return visited, false;
          }
          node := node.next;
          j := j + 1;
        }
        assert chains[..i + 1][..i] == chains[..i];
        assert c[..j] == c;
        i := i + 1;
      }
      FlattenBucketed(chains, nodes, mask + 1);
    }
  }
}
