/**
 * The server: any number of connections and their timers around one store, and the event loop
 * that makes of them what the abstract server makes of its value.
 */
module Servers {
  import opened Names
  import opened Seqs
  import opened Entries
  import opened Ledgers
  import opened Stores
  import opened Conns
  import opened Worlds
  import opened Client
  import opened Histories
  import I = IdleList
  import A = Abstract

  // ----- the connections -----

  /** The objects of a connection. */
  ghost function Foot(c: Conn): set<object>
    reads c.outgoing
  {
    {c, c.outgoing, c.outgoing.mem}
  }

  /** Open connections, apart from each other, and what they are as values. */
  ghost predicate Connected(conns: map<nat, Conn>, peers: map<nat, Peer>, net: set<object>)
    reads net
  {
    && peers.Keys == conns.Keys
    && (forall fd <- conns :: var c := conns[fd];
          c in net && c.outgoing in net && c.outgoing.mem in net && c.Open() && peers[fd] == c.AsPeer())
    && (forall f, g | f in conns && g in conns && f != g ::
          conns[f].outgoing in net && conns[g].outgoing in net && Foot(conns[f]) !! Foot(conns[g]))
  }

  /** The other connections, while one of them is being handled. */
  lemma TakeConn(conns: map<nat, Conn>, peers: map<nat, Peer>, net: set<object>, fd: nat)
    requires Connected(conns, peers, net) && fd in conns
    ensures var c := conns[fd]; Foot(c) <= net && c.Open() && fd in peers && peers[fd] == c.AsPeer()
                                && Connected(conns - {fd}, peers - {fd}, net - Foot(c))
  {
    hide Conn.Open;
  }

  lemma PutConn(conns: map<nat, Conn>, peers: map<nat, Peer>, net: set<object>, fd: nat, c: Conn)
    requires Connected(conns - {fd}, peers - {fd}, net) && c.Open() && Foot(c) !! net
    ensures Connected(conns[fd := c], peers[fd := c.AsPeer()], net + Foot(c))
  {
    hide Conn.Open;
    var rest, after := conns - {fd}, conns[fd := c];
    assert rest.Keys == (peers - {fd}).Keys;
    assert after.Keys == rest.Keys + {fd} && peers[fd := c.AsPeer()].Keys == (peers - {fd}).Keys + {fd};
    assert forall f <- after :: f != fd ==> f in rest && rest[f] == after[f];
  }

  /** Fewer connections are no less sound. */
  lemma DropConns(conns: map<nat, Conn>, peers: map<nat, Peer>, net: set<object>, gone: set<nat>)
    requires Connected(conns, peers, net)
    ensures Connected(conns - gone, peers - gone, net)
  {
    hide Conn.Open;
  }

  // ----- the idle list -----

  ghost function Fds(ring: seq<I.IdleNode>): (s: seq<nat>)
    ensures |s| == |ring|
  {
    seq(|ring|, i requires 0 <= i < |ring| => ring[i].fd)
  }

  /** Each connection has one node in the list, which shows when it was last active. */
  ghost predicate Listed(conns: map<nat, Conn>, ring: seq<I.IdleNode>, active: map<nat, nat>, all: set<I.IdleNode>)
    reads all`lastActive
  {
    && active.Keys == conns.Keys
    && (forall n <- ring :: n in all && n.fd in conns && conns[n.fd].idleNode == n && active[n.fd] == n.lastActive)
    && (forall fd <- conns :: conns[fd].idleNode in ring && conns[fd].idleNode.fd == fd)
  }

  lemma FdsElems(ring: seq<I.IdleNode>)
    ensures Elems(Fds(ring)) == set n | n in ring :: n.fd
  {
    forall n | n in ring ensures n.fd in Elems(Fds(ring)) {
      var i :| 0 <= i < |ring| && ring[i] == n;
      assert Fds(ring)[i] == n.fd;
    }
  }

  lemma WithoutElems<T>(s: seq<T>, x: T)
    requires NoDup(s)
    ensures NoDup(Without(s, x)) && Elems(Without(s, x)) == Elems(s) - {x}
  {
    if x in s { WithoutNoDup(s, x); } else { WithoutNothing(s, x); }
  }

  lemma {:induction false} WithoutNothing<T>(s: seq<T>, x: T)
    requires x !in s
    ensures Without(s, x) == s
  {
    if s != [] { WithoutNothing(s[1..], x); }
  }

  /** One descriptor less for one node less. */
  lemma {:induction false} FdsWithout(ring: seq<I.IdleNode>, node: I.IdleNode)
    requires forall n <- ring :: n.fd == node.fd ==> n == node
    ensures Fds(Without(ring, node)) == Without(Fds(ring), node.fd)
  {
    if ring != [] {
      assert Fds(ring)[1..] == Fds(ring[1..]);
      FdsWithout(ring[1..], node);
      assert ring[0] != node ==>
             Fds([ring[0]] + Without(ring[1..], node)) == [ring[0].fd] + Fds(Without(ring[1..], node));
    }
  }

  lemma ListedTake(conns: map<nat, Conn>, ring: seq<I.IdleNode>, active: map<nat, nat>, all: set<I.IdleNode>, fd: nat)
    requires Listed(conns, ring, active, all) && NoDup(ring) && fd in conns
    ensures var node := conns[fd].idleNode;
            && node in ring && node.fd == fd && active[fd] == node.lastActive
            && Listed(conns - {fd}, Without(ring, node), active - {fd}, all - {node})
            && Fds(Without(ring, node)) == Without(Fds(ring), fd)
  {
    var node := conns[fd].idleNode;
    WithoutElems(ring, node);
    FdsWithout(ring, node);
    forall n | n in Without(ring, node) ensures n in ring && n != node { assert n in Elems(Without(ring, node)); }
    forall f | f in conns && f != fd ensures conns[f].idleNode in Without(ring, node) {
      assert conns[f].idleNode in Elems(Without(ring, node));
    }
  }

  lemma WithoutLast<T>(s: seq<T>, x: T)
    requires NoDup(s + [x])
    ensures Without(s + [x], x) == s
  {
    assert s + [x] + [] == s + [x] && s + [] == s;
    NoDupConcat(s, x, []);
    WithoutSplit(s, x, []);
  }

  lemma ListedPut(conns: map<nat, Conn>, ring: seq<I.IdleNode>, active: map<nat, nat>, all: set<I.IdleNode>, fd: nat,
                  c: Conn)
    requires Listed(conns - {fd}, ring, active - {fd}, all) && c.idleNode.fd == fd
    ensures Listed(conns[fd := c], ring + [c.idleNode], active[fd := c.idleNode.lastActive], all + {c.idleNode})
    ensures Fds(ring + [c.idleNode]) == Fds(ring) + [fd]
  {
    var rest, after := conns - {fd}, conns[fd := c];
    assert (active - {fd}).Keys == rest.Keys;
    assert after.Keys == rest.Keys + {fd} && active[fd := c.idleNode.lastActive].Keys == (active - {fd}).Keys + {fd};
    assert forall f <- after :: f != fd ==> f in rest && rest[f] == after[f];
  }

  /** The list names every connection once. */
  lemma ListedOnce(conns: map<nat, Conn>, ring: seq<I.IdleNode>, active: map<nat, nat>, all: set<I.IdleNode>)
    requires Listed(conns, ring, active, all) && NoDup(ring)
    ensures NoDup(Fds(ring)) && Elems(Fds(ring)) == conns.Keys == active.Keys
  {
    var idle := Fds(ring);
    FdsElems(ring);
    forall i, j | 0 <= i < j < |idle| ensures idle[i] != idle[j] { assert ring[i] in ring && ring[j] in ring; }
    forall fd | fd in conns ensures fd in Elems(idle) { assert conns[fd].idleNode in ring; }
  }

  /** In the order of last activity. */
  lemma ListedInOrder(conns: map<nat, Conn>, ring: seq<I.IdleNode>, active: map<nat, nat>, all: set<I.IdleNode>,
                      latest: nat)
    requires Listed(conns, ring, active, all)
    requires forall i, j | 0 <= i < j < |ring| :: ring[i].lastActive <= ring[j].lastActive
    requires forall n <- ring :: n.lastActive <= latest
    ensures ByActivity(Fds(ring), active) && forall fd <- active :: active[fd] <= latest
  {
    var idle := Fds(ring);
    forall i | 0 <= i < |idle| ensures idle[i] in active && active[idle[i]] == ring[i].lastActive {
      assert ring[i] in ring;
    }
  }

  lemma FdsConcat(a: seq<I.IdleNode>, b: seq<I.IdleNode>)
    ensures Fds(a + b) == Fds(a) + Fds(b)
  {
  }

  /** Without the first members of the list. */
  lemma ListedDrop(conns: map<nat, Conn>, a: seq<I.IdleNode>, b: seq<I.IdleNode>, active: map<nat, nat>,
                   all: set<I.IdleNode>, all': set<I.IdleNode>)
    requires Listed(conns, a + b, active, all) && NoDup(a + b) && Elems(b) <= all'
    ensures var gone := Elems(Fds(a));
            Listed(conns - gone, b, active - gone, all') && Fds(a + b) == Fds(a) + Fds(b)
  {
    hide Fds, NoDup;
    var gone := Elems(Fds(a));
    FdsConcat(a, b);
    FdsElems(a);
    ConcatNoDup(a, b);
    forall m, n | m in a && n in b ensures m.fd != n.fd {
      assert m in Elems(a) && n in Elems(b) && m != n;
      assert m in a + b && n in a + b && conns[n.fd].idleNode == n && conns[m.fd].idleNode == m;
    }
    assert forall n | n in b :: n in a + b && n in Elems(b);
    forall fd | fd in conns && fd !in gone ensures conns[fd].idleNode in b {
      var n := conns[fd].idleNode;
      assert n in a + b && n.fd == fd;
    }
  }

  // ----- the server -----

  class Server {
    const st: Store
    const timers: I.Timers
    var conns: map<nat, Conn>           // fd2conn
    ghost var peers: map<nat, Peer>
    ghost var active: map<nat, nat>
    ghost var net: set<object>          // the objects of the connections
    ghost var served: nat               // commands executed on all connections, closed ones included

    /** Store, connections and timers have no object in common, those of the connections being given. */
    ghost predicate Apart(objects: set<object>)
      reads st, timers
    {
      && st.core + st.zparts !! objects && {this, timers} + timers.all !! st.core + st.zparts + objects
    }

    ghost predicate Valid()
      reads this, st, st.core, st.zparts, timers, timers.all, net
    {
      && Apart(net) && st.Ok() && timers.Ordered() && Connected(conns, peers, net)
      && Listed(conns, timers.ring, active, timers.all)
    }

    /** The server as a value. */
    ghost function AsWorld(): World
      reads this, st`entries, st`values, st.heap`due, st`queue, st`running, st`freed, timers`ring
    {
      World(st.State(), peers, Fds(timers.ring), active, served, st.Owners())
    }

    /** main, up to the event loop. */
    constructor ()
      ensures Valid() && AsWorld() == Start() && timers.latest == 0
      ensures fresh(st) && fresh(st.core) && fresh(st.zparts) && fresh(timers) && fresh(timers.all) && fresh(net)
    {
      hide *;
      st := new Store();
      timers := new I.Timers();
      conns, peers, active, net, served := map[], map[], map[], {}, 0;
      new;
      st.OkIsValid();
      st.EmptyState();
      EmptyIsValid();
    }

    lemma EmptyIsValid()
      requires conns == map[] && peers == map[] && active == map[] && net == {} && timers.ring == [] && served == 0
      requires st.Owners() == Ledger({}, [], {}, [])
      requires st.Ok() && st.State() == A.Abs(map[], map[]) && timers.Ordered()
      requires {this, timers} + timers.all !! st.core + st.zparts
      ensures Valid() && AsWorld() == Start()
    {
      hide Store.Ok, I.Timers.Ordered;
    }

    /** The map of connections and the record of it, for timers and a store that are in order. */
    method Update(cs: map<nat, Conn>, ghost ps: map<nat, Peer>, ghost act: map<nat, nat>, ghost objects: set<object>,
                  ghost n: nat)
      requires st.Ok() && timers.Ordered() && Connected(cs, ps, objects) && Listed(cs, timers.ring, act, timers.all)
      requires Apart(objects)
      modifies this
      ensures Valid() && conns == cs && net == objects
      ensures AsWorld() == World(old(st.State()), ps, Fds(old(timers.ring)), act, n, old(st.Owners()))
    {
      hide Store.Ok, Store.State, I.Timers.Ordered, Connected, Listed, Fds;
      conns, peers, active, net, served := cs, ps, act, objects, n;
    }

    // ----- accepting -----

    /** dlist_insert_before for a new connection: the timers change, nothing else. */
    method ListConn(conn: Conn, now: nat)
      requires Apart(net) && st.Ok() && timers.Ordered() && Connected(conns, peers, net) && now >= timers.latest
      requires conn.Open() && Foot(conn) !! net && conn.idleNode.lastActive == now
      requires conn.idleNode !in timers.all && Foot(conn) + {conn.idleNode} !! st.core + st.zparts + net
      modifies timers, timers.all`prev, timers.all`next, conn.idleNode`prev, conn.idleNode`next
      ensures Apart(net) && st.Ok() && timers.Ordered() && Connected(conns, peers, net) && timers.latest == now
      ensures timers.ring == old(timers.ring) + [conn.idleNode] && timers.all == old(timers.all) + {conn.idleNode}
      ensures conn.idleNode.lastActive == now && st.State() == old(st.State())
    {
      hide Store.Ok, Store.State, I.Timers.Ordered, Conn.Open, Connected, Listed, Fds;
      timers.Accept(conn.idleNode, now);
    }

    /** A new connection in the list of the timers and in the map. */
    method Admit(fd: nat, conn: Conn, now: nat)
      requires Valid() && now >= timers.latest && fd !in conns && conn.Open() && conn.AsPeer() == Peer([], [], [])
      requires conn.idleNode.fd == fd && conn.idleNode.lastActive == now && conn.idleNode !in timers.all
      requires Foot(conn) + {conn.idleNode} !! st.core + st.zparts + net
      modifies this, timers, timers.all, conn.idleNode
      ensures Valid() && timers.latest == now && net == old(net) + Foot(conn)
      ensures timers.all == old(timers.all) + {conn.idleNode} && AsWorld() == Admitted(old(AsWorld()), fd, now)
    {
      hide Store.Ok, Store.State, I.Timers.Ordered, Conn.Open, Connected, Listed, Fds;
      Newcomer(fd, conn);
      ListConn(conn, now);
      Update(conns[fd := conn], peers[fd := Peer([], [], [])], active[fd := now], net + Foot(conn), served);
    }

    /** handle_accept: a new connection, the most recent of all.  A descriptor in use is not given out again. */
    method OnAccept(fd: nat, now: nat, ghost lib: A.Library)
      requires Valid() && now >= timers.latest
      modifies this, timers, timers.all
      ensures Valid() && EventStep(old(AsWorld()), AsWorld(), Accept(fd, now), lib) && timers.latest <= now
      ensures fresh(net - old(net)) && fresh(timers.all - old(timers.all))
    {
      hide Valid, AsWorld, Conn.Open;
      InUse(fd);
      if fd in conns {
        return;
      }
      var conn := new Conn(fd, now);
      Admit(fd, conn, now);
    }

    lemma InUse(fd: nat)
      requires Valid()
      ensures fd in conns <==> fd in AsWorld().peers
    {
    }

    /** A connection under a new descriptor. */
    lemma Newcomer(fd: nat, conn: Conn)
      requires Connected(conns, peers, net) && Listed(conns, timers.ring, active, timers.all) && fd !in conns
      requires conn.Open() && conn.AsPeer() == Peer([], [], []) && conn.idleNode.fd == fd && Foot(conn) !! net
      ensures fd !in peers && Connected(conns[fd := conn], peers[fd := Peer([], [], [])], net + Foot(conn))
      ensures Listed(conns[fd := conn], timers.ring + [conn.idleNode], active[fd := conn.idleNode.lastActive],
                     timers.all + {conn.idleNode})
      ensures Fds(timers.ring + [conn.idleNode]) == Fds(timers.ring) + [fd]
    {
      hide Conn.Open;
      assert conns - {fd} == conns && peers - {fd} == peers && active - {fd} == active;
      PutConn(conns, peers, net, fd, conn);
      ListedPut(conns, timers.ring, active, timers.all, fd, conn);
    }

    // ----- a connection that poll reports -----

    /** Touch its timer; what is known of the others does not change. */
    method TouchConn(c: Conn, now: nat, ghost cs: map<nat, Conn>, ghost ps: map<nat, Peer>, ghost objects: set<object>,
                     ghost ring: seq<I.IdleNode>, ghost act: map<nat, nat>)
      requires Apart(objects + Foot(c)) && st.Ok() && timers.Ordered() && c.idleNode in timers.ring &&
               now >= timers.latest
      requires Connected(cs, ps, objects) && Listed(cs, ring, act, timers.all - {c.idleNode}) && c.Open()
      modifies timers, timers.all`prev, timers.all`next, c.idleNode`lastActive
      ensures Apart(objects + Foot(c)) && st.Ok() && timers.Ordered() && timers.latest == now &&
              c.idleNode.lastActive == now
      ensures timers.ring == Without(old(timers.ring), c.idleNode) + [c.idleNode] && timers.all == old(timers.all)
      ensures Connected(cs, ps, objects) && Listed(cs, ring, act, timers.all - {c.idleNode}) && c.Open()
      ensures c.AsPeer() == old(c.AsPeer()) && st.State() == old(st.State()) && st.Owners() == old(st.Owners())
    {
      hide Store.Ok, Store.State, Store.Owners, I.Timers.Ordered, Conn.Open, Connected, Listed;
      timers.Touch(c.idleNode, now);
    }

    /** Run the handlers; what is known of the timers and the other connections does not change. */
    method HandleConn(c: Conn, lib: A.Library, ev: Event, ghost cs: map<nat, Conn>, ghost ps: map<nat, Peer>,
                      ghost objects: set<object>, ghost ring: seq<I.IdleNode>, ghost act: map<nat, nat>)
      returns (ok: bool)
      requires Apart(objects + Foot(c)) && st.Ok() && timers.Ordered() && c.Open() && ev.Polled? && Possible(ev)
      requires Connected(cs, ps, objects) && Listed(cs, ring, act, timers.all - {c.idleNode}) && Foot(c) !! objects
      requires c.idleNode in timers.ring
      modifies c, c.outgoing, c.outgoing.mem, st.core, st.zparts
      ensures fresh(st.core - old(st.core)) && fresh(st.zparts - old(st.zparts))
      ensures c.outgoing.mem == old(c.outgoing.mem) || fresh(c.outgoing.mem)
      ensures ok == (Readable(old(c.AsPeer()), ev) ==> Survives(old(c.AsPeer()), ev.input, lib))
      ensures ok ==>
        Handled(old(c.AsPeer()), c.AsPeer(), c.wantClose, Stock(old(st.State()), old(st.Owners())),
                Stock(st.State(), st.Owners()), ev, lib)
      ensures ok ==> st.Ok() && Foot(c) !! objects && Apart(objects + Foot(c)) && (c.wantClose || c.Open())
      ensures timers.Ordered() && Connected(cs, ps, objects) && Listed(cs, ring, act, timers.all - {c.idleNode})
      ensures timers.ring == old(timers.ring) && timers.all == old(timers.all) && timers.latest == old(timers.latest)
      ensures conns == old(conns) && c.idleNode.lastActive == old(c.idleNode.lastActive)
    {
      hide Store.Ok, Store.State, Store.Owners, I.Timers.Ordered, Conn.Open, Connected, Listed, Handled,
           Survives, Readable, Possible;
      ok := c.HandlePolled(st, lib, ev);
    }

    /** Touch the timer of a connection that poll reports, and run its handlers. */
    method TouchAndHandle(c: Conn, lib: A.Library, ev: Event, ghost cs: map<nat, Conn>, ghost ps: map<nat, Peer>,
                          ghost objects: set<object>, ghost ring: seq<I.IdleNode>, ghost act: map<nat, nat>)
      returns (ok: bool)
      requires Apart(objects + Foot(c)) && st.Ok() && timers.Ordered() && c.Open() && ev.Polled? && Possible(ev)
      requires Connected(cs, ps, objects) && Listed(cs, ring, act, timers.all - {c.idleNode}) && Foot(c) !! objects
      requires c.idleNode in timers.ring && ev.now >= timers.latest && ring == Without(timers.ring, c.idleNode)
      modifies timers, timers.all`prev, timers.all`next, c.idleNode`lastActive
      modifies c, c.outgoing, c.outgoing.mem, st.core, st.zparts
      ensures fresh(st.core - old(st.core)) && fresh(st.zparts - old(st.zparts))
      ensures c.outgoing.mem == old(c.outgoing.mem) || fresh(c.outgoing.mem)
      ensures ok == (Readable(old(c.AsPeer()), ev) ==> Survives(old(c.AsPeer()), ev.input, lib))
      ensures ok ==>
        Handled(old(c.AsPeer()), c.AsPeer(), c.wantClose, Stock(old(st.State()), old(st.Owners())),
                Stock(st.State(), st.Owners()), ev, lib)
      ensures ok ==> st.Ok() && Foot(c) !! objects && Apart(objects + Foot(c)) && (c.wantClose || c.Open())
      ensures timers.Ordered() && Connected(cs, ps, objects) && Listed(cs, ring, act, timers.all - {c.idleNode})
      ensures timers.ring == ring + [c.idleNode] && timers.all == old(timers.all) && timers.latest == ev.now
      ensures c.idleNode.lastActive == ev.now && c.idleNode in timers.all
    {
      hide Store.Ok, Store.State, Store.Owners, I.Timers.Ordered, Conn.Open, Connected, Listed, Handled,
           Survives, Readable, Possible;
      timers.Members();
      assert c.idleNode in Elems(timers.ring);
      TouchConn(c, ev.now, cs, ps, objects, ring, act);
      ok := HandleConn(c, lib, ev, cs, ps, objects, ring, act);
    }

    /** The connection under a descriptor, and the others, before it is handled. */
    lemma LendConn(fd: nat)
      requires Valid() && fd in conns
      ensures var c := conns[fd]; var node, rest := c.idleNode, net - Foot(c);
              && c.Open() && Foot(c) <= net && Apart(rest + Foot(c)) && node in timers.ring && node in timers.all
              && fd in peers && peers[fd] == c.AsPeer() && fd in AsWorld().peers && AsWorld().peers[fd] == c.AsPeer()
              && Connected(conns - {fd}, peers - {fd}, rest) && Foot(c) !! rest && node.fd == fd
              && Listed(conns - {fd}, Without(timers.ring, node), active - {fd}, timers.all - {node})
              && Fds(Without(timers.ring, node)) == Without(Fds(timers.ring), fd)
      ensures st.Ok() && timers.Ordered() && Connected(conns, peers, net)
    {
      hide Store.Ok, I.Timers.Ordered, Conn.Open, Connected, Listed, Fds;
      timers.Members();
      TakeConn(conns, peers, net, fd);
      ListedTake(conns, timers.ring, active, timers.all, fd);
      var c := conns[fd];
      assert net - Foot(c) + Foot(c) == net;
      assert c.idleNode in Elems(timers.ring);
    }

    lemma WorldIs()
      requires Valid()
      ensures AsWorld() == World(st.State(), peers, Fds(timers.ring), active, served, st.Owners())
    {
      hide Store.Ok, I.Timers.Ordered, Conn.Open, Connected, Listed, Fds;
    }

    /** The connection stays: it is the most recent. */
    method Keep(fd: nat, c: Conn, ghost objects: set<object>, ghost ring: seq<I.IdleNode>, ghost n: nat)
      requires Apart(objects + Foot(c)) && st.Ok() && timers.Ordered() && c.Open() && Foot(c) !! objects
      requires fd in conns && conns[fd] == c && Connected(conns - {fd}, peers - {fd}, objects) && c.idleNode.fd == fd
      requires Listed(conns - {fd}, ring, active - {fd}, timers.all - {c.idleNode}) && c.idleNode in timers.all
      requires timers.ring == ring + [c.idleNode]
      modifies this
      ensures Valid() && net == objects + Foot(c)
      ensures AsWorld() == World(old(st.State()), old(peers)[fd := c.AsPeer()], Fds(ring) + [fd],
                                 old(active)[fd := c.idleNode.lastActive], n, old(st.Owners()))
    {
      hide Store.Ok, Store.State, I.Timers.Ordered, Conn.Open, Connected, Listed, Fds;
      PutConn(conns, peers, objects, fd, c);
      ListedPut(conns, ring, active, timers.all - {c.idleNode}, fd, c);
      assert conns[fd := c] == conns && timers.all - {c.idleNode} + {c.idleNode} == timers.all;
      Update(conns, peers[fd := c.AsPeer()], active[fd := c.idleNode.lastActive], objects + Foot(c), n);
    }

    /** conn_destroy */
    method Destroy(fd: nat, c: Conn, ghost objects: set<object>, ghost ring: seq<I.IdleNode>, ghost n: nat)
      requires Apart(objects + Foot(c)) && st.Ok() && timers.Ordered()
      requires fd in conns && conns[fd] == c && Connected(conns - {fd}, peers - {fd}, objects) && c.idleNode.fd == fd
      requires Listed(conns - {fd}, ring, active - {fd}, timers.all - {c.idleNode}) && c.idleNode in timers.ring
      requires timers.ring == ring + [c.idleNode]
      modifies this, timers, timers.all`prev, timers.all`next
      ensures Valid() && net == objects && timers.all <= old(timers.all) && timers.latest == old(timers.latest)
      ensures AsWorld() == World(old(st.State()), old(peers) - {fd}, Fds(ring), old(active) - {fd}, n,
                                 old(st.Owners()))
    {
      hide Store.Ok, Store.State, I.Timers.Ordered, Conn.Open, Connected, Listed, Fds;
      timers.Members();
      WithoutLast(ring, c.idleNode);
      timers.Close(c.idleNode);
      Update(conns - {fd}, peers - {fd}, active - {fd}, objects, n);
    }

    /** A connection that has been handled stays or is closed. */
    method Settle(fd: nat, c: Conn, close: bool, ghost objects: set<object>, ghost ring: seq<I.IdleNode>, ghost n: nat)
      requires Apart(objects + Foot(c)) && st.Ok() && timers.Ordered() && (close || c.Open()) && Foot(c) !! objects
      requires fd in conns && conns[fd] == c && Connected(conns - {fd}, peers - {fd}, objects) && c.idleNode.fd == fd
      requires Listed(conns - {fd}, ring, active - {fd}, timers.all - {c.idleNode}) && c.idleNode in timers.ring
      requires timers.ring == ring + [c.idleNode] && c.idleNode in timers.all
      modifies this, timers, timers.all`prev, timers.all`next
      ensures Valid() && timers.all <= old(timers.all) && timers.latest == old(timers.latest)
      ensures net == if close then objects else objects + Foot(c)
      ensures AsWorld() ==
              World(old(st.State()),
                    if close then old(peers) - {fd} else old(peers)[fd := c.AsPeer()],
                    if close then Fds(ring) else Fds(ring) + [fd],
                    if close then old(active) - {fd} else old(active)[fd := c.idleNode.lastActive],
                    n, old(st.Owners()))
    {
      hide Valid, AsWorld, Store.Ok, Store.State, Store.Owners, I.Timers.Ordered, Conn.Open, Connected, Listed, Fds;
      if close {
        Destroy(fd, c, objects, ring, n);
      } else {
        Keep(fd, c, objects, ring, n);
      }
    }

    /** Touch, handle, and keep or close a connection that poll reports. */
    method HandleReported(ev: Event, lib: A.Library) returns (ok: bool)
      requires Valid() && ev.Polled? && Possible(ev) && Reported(AsWorld(), ev) && ev.fd in conns &&
               ev.now >= timers.latest
      modifies this, timers, timers.all, net, st.core, st.zparts
      ensures ok == Passes(old(AsWorld()), ev, lib)
      ensures ok ==> Valid() && EventStep(old(AsWorld()), AsWorld(), ev, lib)
      ensures timers.latest == ev.now
      ensures fresh(net - old(net)) && timers.all <= old(timers.all)
      ensures fresh(st.core - old(st.core)) && fresh(st.zparts - old(st.zparts))
    {
      hide Without, Store.Ok, Store.State, Store.Owners, I.Timers.Ordered, Conn.Open, Connected, Listed, Fds, Handled,
           Survives, Possible, Readable, Writable, PolledStep, EventStep, Reported, Valid, AsWorld;
      LendConn(ev.fd);
      WorldIs();
      var fd, c := ev.fd, conns[ev.fd];
      ghost var w, p := AsWorld(), c.AsPeer();
      ghost var rest, ring := net - Foot(c), Without(timers.ring, c.idleNode);
      ok := TouchAndHandle(c, lib, ev, conns - {fd}, peers - {fd}, rest, ring, active - {fd});
      if ok {
        ghost var n := served + |c.replies| - |p.replies|;
        HandledGrows(p, c.AsPeer(), c.wantClose, StockOf(w), Stock(st.State(), st.Owners()), ev, lib);
        ghost var p', closing := c.AsPeer(), c.wantClose;
        Settle(fd, c, ev.pollErr || c.wantClose, rest, ring, n);
        IsPolledStep(w, AsWorld(), ev, lib, p', closing);
      }
    }

    /** poll reports a connection for what it wants, or for an error or a hangup. */
    lemma ReportedMeans(ev: Event)
      requires Valid() && ev.Polled?
      ensures ev.fd in conns <==> ev.fd in AsWorld().peers
      ensures ev.fd in conns ==> var c := conns[ev.fd]; Reported(AsWorld(), ev) <==>
                (ev.pollIn && c.wantRead) || (ev.pollOut && c.wantWrite) || ev.pollErr || ev.pollOther
    {
      hide Store.Ok, I.Timers.Ordered, Conn.Open, Connected, Listed, Fds;
      InUse(ev.fd);
      if ev.fd in conns {
        LendConn(ev.fd);
        conns[ev.fd].WantsByPending();
      }
    }

    /** One entry of the poll result. */
    method OnPolled(ev: Event, lib: A.Library) returns (ok: bool)
      requires Valid() && ev.Polled? && Possible(ev) && ev.now >= timers.latest
      modifies this, timers, timers.all, net, st.core, st.zparts
      ensures ok == Passes(old(AsWorld()), ev, lib)
      ensures ok ==> Valid() && EventStep(old(AsWorld()), AsWorld(), ev, lib)
      ensures timers.latest <= ev.now
      ensures fresh(net - old(net)) && timers.all <= old(timers.all)
      ensures fresh(st.core - old(st.core)) && fresh(st.zparts - old(st.zparts))
    {
      hide Valid, AsWorld, Conn.Open, Survives, Possible, Readable, Reported, PolledStep;
      ReportedMeans(ev);
      if ev.fd in conns {
        var c := conns[ev.fd];
        if (ev.pollIn && c.wantRead) || (ev.pollOut && c.wantWrite) || ev.pollErr || ev.pollOther {
          ok := HandleReported(ev, lib);
          return;
        }
      }
      NotReported(AsWorld(), ev, lib);
      return true;
    }

    // ----- timers and workers -----

    /** The timed-out connections of the list. */
    lemma IdleSplit(closed: seq<I.IdleNode>, ring: seq<I.IdleNode>, all: set<I.IdleNode>, now: nat)
      requires Listed(conns, closed + ring, active, all)
      requires forall n <- closed :: n.lastActive + I.IDLE_TIMEOUT_MS <= now
      requires forall n <- ring :: n.lastActive + I.IDLE_TIMEOUT_MS > now
      ensures TimedOut(World(st.State(), peers, Fds(closed + ring), active, served, st.Owners()), now, |closed|)
    {
      var s := closed + ring;
      forall i | 0 <= i < |s| ensures Fds(s)[i] in active && active[Fds(s)[i]] == s[i].lastActive { assert s[i] in s; }
    }

    /** The connection half of process_timers. */
    method CloseIdle(now: nat) returns (ghost k: nat)
      requires Valid() && now >= timers.latest
      modifies this, timers, timers.all`prev, timers.all`next
      ensures Valid() && timers.latest == now && net == old(net) && timers.all <= old(timers.all)
      ensures TimedOut(old(AsWorld()), now, k) && k <= |old(AsWorld()).idle| &&
              AsWorld() == WithoutFirst(old(AsWorld()), k)
    {
      hide Store.Ok, Store.State, I.Timers.Ordered, Conn.Open, Connected, Listed, Fds, TimedOut;
      timers.Members();
      ghost var ring, all := timers.ring, timers.all;
      var closed := timers.ExpireIdle(now);
      IdleSplit(closed, timers.ring, all, now);
      ListedDrop(conns, closed, timers.ring, active, all, timers.all);
      ghost var gone := Elems(Fds(closed));
      DropConns(conns, peers, net, gone);
      FdsElems(closed);
      k := |closed|;
      assert Fds(ring)[..k] == Fds(closed) && Fds(ring)[k..] == Fds(timers.ring);
      Update(conns - (set n | n in closed :: n.fd), peers - gone, active - gone, net, served);
    }

    /** The entry half of process_timers. */
    method ExpireKeys(now: nat) returns (ghost gone: set<Bytes>)
      requires Valid()
      modifies st.core, st.zparts
      ensures Valid() && A.ExpiryStep(old(AsWorld()).s, AsWorld().s, now, gone)
      ensures AsWorld() == old(AsWorld()).(s := AsWorld().s, owners := AsWorld().owners)
      ensures Departed(old(AsWorld()).owners, AsWorld().owners, gone, A.LargeKeys(old(AsWorld()).s.values))
      ensures timers.latest == old(timers.latest) && net == old(net) && timers.all == old(timers.all)
      ensures fresh(st.core - old(st.core)) && fresh(st.zparts - old(st.zparts))
    {
      hide Store.Ok, Store.State, Store.Owners, Departed, A.LargeKeys, Store.Valid, I.Timers.Ordered, Conn.Open,
           Connected, Listed, Fds,
           A.ExpiryStep;
      gone := st.Expire(now);
    }

    /** process_timers */
    method OnTimers(now: nat, ghost lib: A.Library)
      requires Valid() && now >= timers.latest
      modifies this, timers, timers.all, st.core, st.zparts
      ensures Valid() && EventStep(old(AsWorld()), AsWorld(), Timers(now), lib)
      ensures timers.latest == now && net == old(net) && timers.all <= old(timers.all)
      ensures fresh(st.core - old(st.core)) && fresh(st.zparts - old(st.zparts))
    {
      hide Valid, AsWorld, Store.Owners, Departed, TimedOut, A.ExpiryStep;
      ghost var w := AsWorld();
      ghost var k := CloseIdle(now);
      ghost var gone := ExpireKeys(now);
      assert TimersStep(w, AsWorld(), now, k, gone);
    }

    /** A worker takes a task, or finishes one: nothing but the owner of an entry changes. */
    method OnWorker(takes: bool)
      requires Valid()
      modifies st.core, st.zparts
      ensures Valid() && AsWorld() == old(AsWorld()).(owners := AsWorld().owners)
      ensures var a, b := old(AsWorld()).owners, AsWorld().owners; if takes then Taken(a, b) else Finished(a, b)
      ensures timers.latest == old(timers.latest) && net == old(net) && timers.all == old(timers.all)
      ensures fresh(st.core - old(st.core)) && fresh(st.zparts - old(st.zparts))
    {
      hide Store.Ok, Store.State, Store.Owners, Taken, Finished, I.Timers.Ordered, Conn.Open, Connected, Listed, Fds;
      if takes {
        st.Take();
      } else {
        st.Finish();
      }
    }

    /** One event. */
    method OnEvent(ev: Event, lib: A.Library) returns (ok: bool)
      requires Valid() && Possible(ev) && InTime(timers.latest, ev)
      modifies this, timers, timers.all, net, st.core, st.zparts
      ensures ok == Passes(old(AsWorld()), ev, lib)
      ensures ok ==> Valid() && EventStep(old(AsWorld()), AsWorld(), ev, lib)
      ensures timers.latest <= After(old(timers.latest), ev)
      ensures fresh(net - old(net)) && fresh(timers.all - old(timers.all))
      ensures fresh(st.core - old(st.core)) && fresh(st.zparts - old(st.zparts))
    {
      hide Valid, AsWorld, Taken, Finished, Possible, Readable, Writable, Survives, PolledStep, TimersStep;
      ok := true;
      match ev {
        case Accept(fd, now) => OnAccept(fd, now, lib);
        case Polled(_, _, _, _, _, _, _, _, _, _) => ok := OnPolled(ev, lib);
        case Timers(now) => OnTimers(now, lib);
        case WorkerTakes => OnWorker(true);
        case WorkerFinishes => OnWorker(false);
      }
    }

    /** Every entry is in exactly one place. */
    lemma AllAccounted()
      requires Valid()
      ensures var w := AsWorld(); Accounted(w.owners, w.s.values.Keys)
    {
      hide Store.Ok, Accounted, I.Timers.Ordered, Conn.Open, Connected, Listed;
      st.Partition();
    }

    /**
     * The event loop, over any sequence of events on any number of connections.  The server goes through
     * the worlds that the abstract server goes through, event by event, and stops early only at an event
     * that an assertion stops; in every one of them all entries ever created are accounted for.
     */
    method Serve(lib: A.Library, events: seq<Event>) returns (ok: bool, ghost ws: seq<World>)
      requires Valid() && Timely(timers.latest, events) && forall ev <- events :: Possible(ev)
      modifies this, timers, timers.all, net, st.core, st.zparts
      ensures History(ws, events, lib) && ws[0] == old(AsWorld())
      ensures ok ==> |ws| == |events| + 1 && Valid() && AsWorld() == ws[|events|]
      ensures !ok ==> |ws| <= |events| && !Passes(ws[|ws| - 1], events[|ws| - 1], lib)
      ensures forall w <- ws :: Accounted(w.owners, w.s.values.Keys)
    {
      hide Valid, AsWorld, Accounted, Possible, Passes, EventStep, History, Timely, InTime;
      ok, ws := true, [AsWorld()];
      NoHistory(ws[0], events, lib);
      AllAccounted();
      ghost var t := timers.latest;
      for i := 0 to |events|
        invariant ok && Valid() && |ws| == i + 1 && AsWorld() == ws[i] && History(ws, events, lib) &&
                  ws[0] == old(AsWorld())
        invariant timers.latest <= t && Timely(t, events[i..]) && forall w <- ws :: Accounted(w.owners, w.s.values.Keys)
        invariant fresh(net - old(net)) && fresh(timers.all - old(timers.all))
        invariant fresh(st.core - old(st.core)) && fresh(st.zparts - old(st.zparts))
      {
        TimelyNext(timers.latest, t, events, i);
        ok := OnEvent(events[i], lib);
        if !ok {
          return;
        }
        t := After(t, events[i]);
        HistoryNext(ws, events, AsWorld(), lib);
        AllAccounted();
        ws := ws + [AsWorld()];
      }
    }

    /** The list of the timers at any time: every connection once, the longest idle first. */
    lemma IdleInOrder()
      requires Valid()
      ensures IdleOk(AsWorld(), timers.latest)
    {
      hide Store.Ok, Conn.Open, Listed, I.Timers.Ordered, Fds, ByActivity, NoDup, Elems;
      timers.Members();
      TimersInOrder();
      ListedOnce(conns, timers.ring, active, timers.all);
      ListedInOrder(conns, timers.ring, active, timers.all, timers.latest);
    }

    lemma TimersInOrder()
      requires timers.Ordered()
      ensures forall i, j | 0 <= i < j < |timers.ring| :: timers.ring[i].lastActive <= timers.ring[j].lastActive
      ensures forall n <- timers.ring :: n.lastActive <= timers.latest
    {
      hide I.Linked, I.Simple;
      var t := I.TimesOf(timers.all);
      assert forall n <- timers.ring :: n in Elems(timers.ring) && n in t && t[n] == n.lastActive;
    }
  }

  /** The server from its start, over any sequence of events. */
  method RunServer(lib: A.Library, events: seq<Event>) returns (ok: bool, srv: Server, ghost ws: seq<World>)
    requires Timely(0, events) && Sane(lib) && forall ev <- events :: Possible(ev)
    ensures History(ws, events, lib) && ws[0] == Start()
    ensures ok ==> |ws| == |events| + 1 && srv.Valid() && srv.AsWorld() == ws[|events|]
    ensures !ok ==> |ws| <= |events| && !Passes(ws[|ws| - 1], events[|ws| - 1], lib)
    ensures forall i | 0 <= i < |ws| :: WorldOk(ws[i], ClockAt(0, events, i))
    ensures forall w <- ws :: Accounted(w.owners, w.s.values.Keys)
  {
    hide Accounted, Server.Valid, Server.AsWorld, History, Timely, Possible, Passes, WorldOk;
    srv := new Server();
    ok, ws := srv.Serve(lib, events);
    StartIsOk();
    forall i | 0 <= i < |ws| ensures WorldOk(ws[i], ClockAt(0, events, i)) { HistoryOk(ws, events, lib, 0, i); }
  }
}
