/**
 * The idle timers: a circular doubly linked list of connections, kept in the order of their last
 * activity.
 */
module IdleList {
  import opened Seqs

  const IDLE_TIMEOUT_MS := 60000

  /** The list node embedded in a connection, with the connection's last activity and descriptor. */
  class IdleNode {
    var prev: IdleNode?
    var next: IdleNode?
    var lastActive: nat
    const fd: nat

    constructor (fd: nat, now: nat)
      ensures this.fd == fd && lastActive == now
    {
      this.fd, lastActive, prev, next := fd, now, null, null;
    }
  }

  datatype Pointers = Pointers(prev: IdleNode?, next: IdleNode?)

  type Links = map<IdleNode, Pointers>

  ghost function LinksOf(s: set<IdleNode>): Links
    reads s`prev, s`next
  {
    map n | n in s :: Pointers(n.prev, n.next)
  }

  /** The whole circle, the head at both ends. */
  ghost function Circle(head: IdleNode, ring: seq<IdleNode>): seq<IdleNode> { [head] + ring + [head] }

  /** The pointers between places i and i + 1 of c. */
  ghost predicate Joined(c: seq<IdleNode>, m: Links, i: nat)
    requires i + 1 < |c|
  {
    c[i] in m && m[c[i]].next == c[i + 1] && c[i + 1] in m && m[c[i + 1]].prev == c[i]
  }

  /** In snapshot m the pointers form the circle, in both directions. */
  ghost predicate Linked(c: seq<IdleNode>, m: Links) {
    forall i | 0 <= i < |c| - 1 :: Joined(c, m, i)
  }

  /** The head is no member, and no member occurs twice. */
  ghost predicate Simple(head: IdleNode, ring: seq<IdleNode>) { NoDup([head] + ring) }

  /** What inserting x between p and q writes. */
  ghost function Inserted(m: Links, p: IdleNode, x: IdleNode, q: IdleNode): Links
    requires p in m && q in m && x in m
  {
    var m1 := m[p := m[p].(next := x)][x := Pointers(p, q)];
    m1[q := m1[q].(prev := x)]
  }

  /** What removing the node between p and q writes. */
  ghost function Removed(m: Links, p: IdleNode, q: IdleNode): Links
    requires p in m && q in m
  {
    var m1 := m[p := m[p].(next := q)];
    m1[q := m1[q].(prev := p)]
  }

  /** Two places of the circle hold the same node only if both are its ends. */
  lemma Places(head: IdleNode, ring: seq<IdleNode>, i: nat, j: nat)
    requires Simple(head, ring) && i < j < |ring| + 2
    ensures Circle(head, ring)[i] == Circle(head, ring)[j] ==> i == 0 && j == |ring| + 1
  {
    var c, s := Circle(head, ring), [head] + ring;
    assert c[i] == s[i] && c[j] == s[if j == |s| then 0 else j];
  }

  /** Inserting x between two neighbours of the circle. */
  lemma LinkedInsert(head: IdleNode, a: seq<IdleNode>, x: IdleNode, b: seq<IdleNode>, m: Links)
    requires Simple(head, a + [x] + b) && Linked(Circle(head, a + b), m) && x in m
    ensures var c := Circle(head, a + b); var p, q := c[|a|], c[|a| + 1];
            Joined(c, m, |a|) && Linked(Circle(head, a + [x] + b), Inserted(m, p, x, q))
  {
    var k, c, c' := |a|, Circle(head, a + b), Circle(head, a + [x] + b);
    assert Joined(c, m, k);
    var m' := Inserted(m, c[k], x, c[k + 1]);
    assert forall i | 0 <= i <= k :: c'[i] == c[i];
    assert c'[k + 1] == x && c'[k + 2] == c[k + 1];
    forall i | 0 <= i < |c'| - 1 ensures Joined(c', m', i) {
      if i < k {
        assert Joined(c, m, i);
        Places(head, a + [x] + b, i, k);
        Places(head, a + [x] + b, i + 1, k + 1);
        Places(head, a + [x] + b, i, k + 1);
        Places(head, a + [x] + b, i + 1, k + 2);
      } else if i > k + 1 {
        assert c'[i] == c[i - 1] && c'[i + 1] == c[i] && Joined(c, m, i - 1);
        Places(head, a + [x] + b, k, i);
        Places(head, a + [x] + b, k + 1, i);
        Places(head, a + [x] + b, k + 1, i + 1);
        Places(head, a + [x] + b, k + 2, i + 1);
      } else {
        Places(head, a + [x] + b, k, k + 1);
        Places(head, a + [x] + b, k + 1, k + 2);
      }
    }
  }

  /** Taking x out from between its neighbours. */
  lemma LinkedRemove(head: IdleNode, a: seq<IdleNode>, x: IdleNode, b: seq<IdleNode>, m: Links)
    requires Simple(head, a + [x] + b) && Linked(Circle(head, a + [x] + b), m)
    ensures var c := Circle(head, a + [x] + b); var p, q := c[|a|], c[|a| + 2];
            Joined(c, m, |a|) && Joined(c, m, |a| + 1) && c[|a| + 1] == x &&
                Linked(Circle(head, a + b), Removed(m, p, q))
  {
    var k, c, c' := |a|, Circle(head, a + [x] + b), Circle(head, a + b);
    assert c[k + 1] == x && Joined(c, m, k) && Joined(c, m, k + 1);
    var m' := Removed(m, c[k], c[k + 2]);
    assert forall i | 0 <= i <= k :: c'[i] == c[i];
    forall i | 0 <= i < |c'| - 1 ensures Joined(c', m', i) {
      if i < k {
        assert Joined(c, m, i);
        Places(head, a + [x] + b, i, k);
        Places(head, a + [x] + b, i + 1, k + 2);
      } else if i > k {
        assert c'[i] == c[i + 1] && c'[i + 1] == c[i + 2] && Joined(c, m, i + 1);
        Places(head, a + [x] + b, k, i + 1);
        Places(head, a + [x] + b, k + 2, i + 2);
      }
    }
  }

  // ----- the order of last activity -----

  type Times = map<IdleNode, nat>

  ghost function TimesOf(s: set<IdleNode>): Times
    reads s`lastActive
  {
    map n | n in s :: n.lastActive
  }

  /** The longest idle first. */
  ghost predicate InOrder(ring: seq<IdleNode>, t: Times) {
    && (forall n <- ring :: n in t)
    && forall i, j | 0 <= i < j < |ring| :: t[ring[i]] <= t[ring[j]]
  }

  ghost predicate NoneLater(t: Times, latest: nat) {
    forall n <- t :: t[n] <= latest
  }

  lemma OrderWithout(a: seq<IdleNode>, x: IdleNode, b: seq<IdleNode>, t: Times)
    requires InOrder(a + [x] + b, t)
    ensures InOrder(a + b, t)
  {
    var s, u := a + [x] + b, a + b;
    assert forall i | 0 <= i < |u| :: u[i] == s[if i < |a| then i else i + 1];
  }

  lemma OrderFrame(ring: seq<IdleNode>, t: Times, t': Times)
    requires InOrder(ring, t) && forall n <- ring :: n in t ==> n in t' && t'[n] == t[n]
    ensures InOrder(ring, t')
  {
  }

  /** Once the first member has not been idle for the timeout, none has. */
  lemma FirstIsLongest(ring: seq<IdleNode>, t: Times, now: nat)
    requires InOrder(ring, t) && ring != [] && t[ring[0]] + IDLE_TIMEOUT_MS > now
    ensures forall n <- ring :: t[n] + IDLE_TIMEOUT_MS > now
  {
  }

  lemma OrderAppend(ring: seq<IdleNode>, x: IdleNode, t: Times, t': Times)
    requires InOrder(ring, t) && x !in ring && x in t' && NoneLater(t', t'[x])
    requires forall n <- ring :: n in t ==> n in t' && t'[n] == t[n]
    ensures InOrder(ring + [x], t')
  {
  }

  lemma StillNoneLater(t: Times, latest: nat, now: nat)
    requires NoneLater(t, latest) && latest <= now
    ensures NoneLater(t, now)
  {
  }

  /** A member that has been taken out goes to the end, active now. */
  lemma OrderTouched(rest: seq<IdleNode>, x: IdleNode, t: Times, latest: nat, now: nat)
    requires InOrder(rest, t) && NoneLater(t, latest) && latest <= now && x !in rest
    ensures InOrder(rest + [x], t[x := now]) && NoneLater(t[x := now], now)
  {
    OrderAppend(rest, x, t, t[x := now]);
  }

  class Timers {
    const head: IdleNode                // dummy node, not a member
    ghost var ring: seq<IdleNode>       // the members, from the head on
    ghost var all: set<IdleNode>
    ghost var latest: nat               // the latest reading of the clock

    ghost predicate Valid()
      reads this, all`prev, all`next
    {
      all == {head} + Elems(ring) && Simple(head, ring) && Linked(Circle(head, ring), LinksOf(all))
    }

    /** Valid, in the order of last activity, and none active later than the clock has shown. */
    ghost predicate Ordered()
      reads this, all
      ensures Ordered() ==> all == {head} + Elems(ring)
    {
      Valid() && InOrder(ring, TimesOf(all)) && NoneLater(TimesOf(all), latest)
    }

    /** dlist_init */
    constructor ()
      ensures Ordered() && ring == [] && fresh(all) && latest == 0
    {
      head := new IdleNode(0, 0);
      ring, all, latest := [], {}, 0;
      new;
      head.prev, head.next := head, head;
      all := {head};
    }

    /** dlist_empty */
    method IsEmpty() returns (b: bool)
      requires Valid()
      ensures b == (ring == [])
    {
      assert Joined(Circle(head, ring), LinksOf(all), 0);
      if ring != [] { Places(head, ring, 0, 1); }
      b := head.next == head;
    }

    /** The four pointers that an insertion writes. */
    method Splice(target: IdleNode, rookie: IdleNode, ghost more: set<IdleNode>)
      requires target in more && rookie in more && target.prev != null && target.prev in more
      modifies more`prev, more`next
      ensures LinksOf(more) == Inserted(old(LinksOf(more)), old(target.prev), rookie, target)
    {
      var prev := target.prev;
      prev.next := rookie;
      rookie.prev := prev;
      rookie.next := target;
      target.prev := rookie;
    }

    /** dlist_insert_before: rookie goes before the node at place i of the members and the head. */
    method InsertBefore(target: IdleNode, rookie: IdleNode, ghost i: nat)
      requires Valid() && rookie !in all && i <= |ring| && target == (ring + [head])[i]
      modifies this`ring, this`all, all`prev, all`next, rookie`prev, rookie`next
      ensures Valid() && ring == old(ring)[..i] + [rookie] + old(ring)[i..] && all == old(all) + {rookie}
    {
      hide NoDup, Linked, Simple;
      ghost var a, b := ring[..i], ring[i..];
      ghost var more := all + {rookie};
      ghost var m := LinksOf(more);
      assert ring == a + b;
      SimpleInsert(head, a, rookie, b);
      LinkedFrame(Circle(head, ring), LinksOf(all), m);
      LinkedInsert(head, a, rookie, b, m);
      assert target == Circle(head, ring)[i + 1];
      Splice(target, rookie, more);
      InsertedElems(ring, i, rookie);
      ring, all := a + [rookie] + b, more;
    }

    /** dlist_detach: the member at place i leaves the list. */
    method Detach(node: IdleNode, ghost i: nat)
      requires Valid() && i < |ring| && ring[i] == node
      modifies this`ring, this`all, all`prev, all`next
      ensures Valid() && ring == old(ring)[..i] + old(ring)[i + 1..] && all == old(all) - {node}
    {
      hide Linked, Simple;
      ghost var a, b := ring[..i], ring[i + 1..];
      ghost var m := LinksOf(all);
      assert ring == a + [node] + b;
      SimpleRemove(head, a, node, b);
      LinkedRemove(head, a, node, b, m);
      var prev := node.prev;
      var next := node.next;
      prev.next := next;
      next.prev := prev;
      assert LinksOf(all) == Removed(m, prev, next);
      ring, all := a + b, all - {node};
      LinkedFrame(Circle(head, ring), Removed(m, prev, next), LinksOf(all));
    }

    /** handle_accept: a new connection, active now, goes to the back, before the head. */
    method Accept(node: IdleNode, ghost now: nat)
      requires Ordered() && node !in all && node.lastActive == now >= latest
      modifies this`ring, this`all, this`latest, all`prev, all`next, node`prev, node`next
      ensures Ordered() && ring == old(ring) + [node] && all == old(all) + {node} && latest == now
    {
      hide Linked, Simple, InOrder, NoneLater;
      ghost var t := TimesOf(all);
      assert node in ring ==> node in Elems(ring);
      OrderTouched(ring, node, t, latest, now);
      latest := now;
      assert TimesOf(all + {node}) == t[node := now];
      Append(node);
    }

    lemma NoneClosed(nodes: set<IdleNode>)
      ensures nodes - Elems([]) == nodes
    {
    }

    /** Once the first member has not been idle for the timeout, none has. */
    lemma AllActive(node: IdleNode, now: nat)
      requires Ordered() && ring != [] && node == ring[0] && node.lastActive + IDLE_TIMEOUT_MS > now
      ensures forall n <- ring :: n.lastActive + IDLE_TIMEOUT_MS > now
    {
      hide Linked, Simple;
      FirstIsLongest(ring, TimesOf(all), now);
    }

    lemma MoveOne(a: seq<IdleNode>, b: seq<IdleNode>)
      requires b != []
      ensures a + b == a + [b[0]] + b[1..] && Elems(a + [b[0]]) == Elems(a) + {b[0]}
    {
    }

    lemma AtEnd(s: seq<IdleNode>, h: IdleNode, x: IdleNode)
      ensures (s + [h])[|s|] == h && s[..|s|] + [x] + s[|s|..] == s + [x]
    {
    }

    /** The head is no member, and no member stands in the list twice. */
    lemma Members()
      requires Ordered()
      ensures NoDup(ring) && head !in ring && all == {head} + Elems(ring)
    {
      hide Linked;
      assert [head] + ring == [] + [head] + ring;
      NoDupConcat([], head, ring);
    }

    /** Where a member stands. */
    lemma PlaceOf(node: IdleNode) returns (i: nat)
      requires Valid() && node in ring
      ensures i < |ring| && ring[i] == node && node != head && node in all
      ensures ring[..i] + ring[i + 1..] == Without(ring, node)
      ensures Elems(Without(ring, node)) == Elems(ring) - {node} && node !in Without(ring, node)
    {
      hide Linked;
      i :| 0 <= i < |ring| && ring[i] == node;
      var a, b := ring[..i], ring[i + 1..];
      assert ring == a + [node] + b;
      SimpleRemove(head, a, node, b);
      SimpleSplit(head, a, node, b);
      WithoutSplit(a, node, b);
      assert node in a + b ==> node in Elems(a + b);
    }

    /** The event loop's update of a connection's timer: it is now the most recent. */
    method Touch(node: IdleNode, now: nat)
      requires Ordered() && node in ring && now >= latest
      modifies this`ring, this`all, this`latest, all`prev, all`next, node`lastActive
      ensures Ordered() && ring == Without(old(ring), node) + [node] && all == old(all) && latest == now
      ensures node.lastActive == now
    {
      hide Linked, Simple, InOrder, NoneLater, Without, Elems;
      ghost var i := PlaceOf(node);
      ghost var t := TimesOf(all);
      WithoutOrder(ring, i, t);
      OrderTouched(ring[..i] + ring[i + 1..], node, t, latest, now);
      node.lastActive := now;
      latest := now;
      Detach(node, i);
      assert all + {node} == old(all) && TimesOf(all + {node}) == t[node := now];
      Append(node);
    }

    /** conn_destroy: a connection leaves the list. */
    method Close(node: IdleNode)
      requires Ordered() && node in ring
      modifies this`ring, this`all, all`prev, all`next
      ensures Ordered() && ring == Without(old(ring), node) && all == old(all) - {node}
    {
      hide Linked, Simple, InOrder;
      ghost var i := PlaceOf(node);
      ghost var t := TimesOf(all);
      WithoutOrder(ring, i, t);
      Detach(node, i);
      OrderFrame(ring, t, TimesOf(all));
    }

    /** dlist_insert_before the head, for a node whose place in the order is the last. */
    method Append(node: IdleNode)
      requires Valid() && node !in all && InOrder(ring + [node], TimesOf(all + {node}))
      requires NoneLater(TimesOf(all + {node}), latest)
      modifies this`ring, this`all, all`prev, all`next, node`prev, node`next
      ensures Ordered() && ring == old(ring) + [node] && all == old(all) + {node}
    {
      hide Linked, Simple, InOrder;
      ghost var t := TimesOf(all + {node});
      AtEnd(ring, head, node);
      InsertBefore(head, node, |ring|);
      assert TimesOf(all) == t;
    }

    /** The member after the head. */
    method First() returns (node: IdleNode)
      requires Valid() && ring != []
      ensures node == ring[0] && node in all
    {
      assert Joined(Circle(head, ring), LinksOf(all), 0);
      node := head.next;
    }

    /**
     * The connection pass of process_timers: it stops at the first connection that has not been
     * idle for the timeout, and by then has closed exactly those that have.
     */
    method ExpireIdle(now: nat) returns (closed: seq<IdleNode>)
      requires Ordered() && now >= latest
      modifies this`ring, this`all, this`latest, all`prev, all`next
      ensures Ordered() && old(ring) == closed + ring && all == old(all) - Elems(closed) && latest == now
      ensures forall n <- closed :: n.lastActive + IDLE_TIMEOUT_MS <= now
      ensures forall n <- ring :: n.lastActive + IDLE_TIMEOUT_MS > now
    {
      hide Linked, Simple, InOrder, NoneLater, Without, Elems;
      closed := [];
      NoneClosed(all);
      StillNoneLater(TimesOf(all), latest, now);
      latest := now;
      ghost var was := ring;
      while true
        invariant Ordered() && latest == now && was == closed + ring && all == old(all) - Elems(closed)
        invariant forall n <- closed :: n.lastActive + IDLE_TIMEOUT_MS <= now
        decreases |ring|
      {
        var empty := IsEmpty();
        if empty {
          break;
        }
        var node := First();
        if node.lastActive + IDLE_TIMEOUT_MS > now {
          AllActive(node, now);
          break;
        }
        MoveOne(closed, ring);
        WithoutFirst(ring);
        Close(node);
        closed := closed + [node];
      }
    }
  }

  lemma WithoutFirst(s: seq<IdleNode>)
    requires s != []
    ensures Without(s, s[0]) == s[1..]
  {
  }

  /** Taking out one member keeps the order. */
  lemma WithoutOrder(ring: seq<IdleNode>, i: nat, t: Times)
    requires InOrder(ring, t) && i < |ring|
    ensures InOrder(ring[..i] + ring[i + 1..], t)
  {
    assert ring == ring[..i] + [ring[i]] + ring[i + 1..];
    OrderWithout(ring[..i], ring[i], ring[i + 1..], t);
  }

  lemma SimpleSplit(head: IdleNode, a: seq<IdleNode>, x: IdleNode, b: seq<IdleNode>)
    requires Simple(head, a + [x] + b)
    ensures x !in a
  {
    assert [head] + (a + [x] + b) == ([head] + a) + [x] + b;
    NoDupConcat([head] + a, x, b);
    assert forall y <- a :: y in [head] + a;
  }

  lemma SimpleInsert(head: IdleNode, a: seq<IdleNode>, x: IdleNode, b: seq<IdleNode>)
    requires Simple(head, a + b) && x != head && x !in a + b
    ensures Simple(head, a + [x] + b)
  {
    assert [head] + (a + b) == ([head] + a) + b;
    assert [head] + (a + [x] + b) == ([head] + a) + [x] + b;
    NoDupInsert([head] + a, x, b);
  }

  lemma NoDupInsert<T>(a: seq<T>, x: T, b: seq<T>)
    requires NoDup(a + b) && x !in a + b
    ensures NoDup(a + [x] + b)
  {
    var s := a + b;
    assert forall i | 0 <= i < |a| :: a[i] == s[i];
    assert forall i | 0 <= i < |b| :: b[i] == s[|a| + i];
    NoDupConcat(a, x, b);
  }

  lemma SimpleRemove(head: IdleNode, a: seq<IdleNode>, x: IdleNode, b: seq<IdleNode>)
    requires Simple(head, a + [x] + b)
    ensures Simple(head, a + b) && x != head && Elems(a + b) == Elems(a + [x] + b) - {x}
  {
    assert [head] + (a + b) == ([head] + a) + b;
    assert [head] + (a + [x] + b) == ([head] + a) + [x] + b;
    NoDupDrop([head] + a, x, b);
    NoDupConcat([head] + a, x, b);
    assert head in [head] + a;
    assert forall y <- a :: y in [head] + a;
    ElemsConcat(a + [x], b);
    ElemsConcat(a, [x]);
    ElemsConcat(a, b);
  }

  /** The circle does not care for nodes that are not on it. */
  lemma LinkedFrame(c: seq<IdleNode>, m: Links, m': Links)
    requires Linked(c, m) && forall n <- c :: n in m ==> n in m' && m'[n] == m[n]
    ensures Linked(c, m')
  {
    forall i | 0 <= i < |c| - 1 ensures Joined(c, m', i) { assert Joined(c, m, i); }
  }
}
