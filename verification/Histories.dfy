/**
 * What holds in every world of every history of the server.
 */
module Histories {
  import opened Names
  import opened Seqs
  import opened Entries
  import opened Ledgers
  import opened Bits
  import opened Requests
  import opened Responses
  import opened Output
  import opened Client
  import opened IdleList
  import opened Worlds
  import A = Abstract

  /**
   * Every command that has been read is answered, what has been written is a prefix of the replies'
   * frames, and, as long as at most 2^63 commands have been served, the replies are well formed.
   */
  ghost predicate PeerOk(p: Peer, served: nat) {
    && |p.replies| == |Requested(p.received).cmds| && p.sent <= Frames(p.replies)
    && (served <= TWO_63 ==> forall r <- p.replies :: Fits(r))
  }

  /** Descriptors in the order of their last activity. */
  ghost predicate ByActivity(idle: seq<nat>, active: map<nat, nat>) {
    && (forall fd <- idle :: fd in active)
    && forall i, j | 0 <= i < j < |idle| :: active[idle[i]] <= active[idle[j]]
  }

  /** Every connection is in the idle list once, the longest idle first, and none was active after now. */
  ghost predicate IdleOk(w: World, now: nat) {
    && NoDup(w.idle) && Elems(w.idle) == w.peers.Keys == w.active.Keys && ByActivity(w.idle, w.active)
    && forall fd <- w.active :: w.active[fd] <= now
  }

  ghost predicate WorldOk(w: World, now: nat) {
    && Bounded(w.s, now, w.served) && IdleOk(w, now)
    && forall fd <- w.peers :: PeerOk(w.peers[fd], w.served)
  }

  lemma {:induction false} FramesGrow(rs: seq<Res>, more: seq<Res>)
    ensures Frames(rs) <= Frames(rs + more)
  {
    hide Frame, Encode, Reply;
    if more == [] {
      assert rs + more == rs;
    } else {
      var k := |more| - 1;
      FramesGrow(rs, more[..k]);
      assert rs + more == rs + more[..k] + [more[k]];
      FramesAppend(rs + more[..k], more[k]);
    }
  }

  /** The commands of a longer input begin with those of the shorter. */
  lemma CommandsGrow(a: Bytes, b: Bytes)
    ensures |Requested(a).cmds| <= |Requested(a + b).cmds|
  {
    RequestedContinue(a, b);
  }

  /** Along a run of commands the store stays bounded and the responses fit. */
  lemma {:induction false} RunBounded(states: seq<A.Abs>, cmds: seq<Command>, clock: nat -> nat, lib: A.Library,
                                      rs: seq<Res>, t: nat, n: nat, i: nat)
    requires Run(states, cmds, clock, lib, rs) && Bounded(states[0], t, n) && Sane(lib) && i <= |cmds|
    requires (forall j :: t <= clock(j)) && forall j, k | j <= k :: clock(j) <= clock(k)
    ensures Bounded(states[i], if i == 0 then t else clock(i - 1), n + i)
    ensures n + i <= TWO_63 ==> forall j | 0 <= j < i :: Fits(rs[j])
  {
    hide Fits, Bounded, A.Answers, A.Aborts;
    if i > 0 {
      RunBounded(states, cmds, clock, lib, rs, t, n, i - 1);
      Later(states[i - 1], if i == 1 then t else clock(i - 2), clock(i - 1), n + i - 1);
      assert !A.Aborts(cmds[i - 1], lib) &&
             A.Answers(states[i - 1], cmds[i - 1], clock(i - 1), lib, states[i - 1 + 1], rs[i - 1]);
      AnswerKeepsBound(states[i - 1], cmds[i - 1], clock(i - 1), lib, states[i], rs[i - 1], n + i - 1);
      if n + i <= TWO_63 { AnswerFits(states[i - 1], cmds[i - 1], clock(i - 1), lib, states[i], rs[i - 1], n + i - 1); }
    }
  }

  lemma Later(s: A.Abs, t: nat, t': nat, n: nat)
    requires Bounded(s, t, n) && t <= t'
    ensures Bounded(s, t', n)
  {
  }

  /** A write keeps what has been written a prefix. */
  lemma WroteOk(p: Peer, kernel: Kernel, n: nat)
    requires PeerOk(p, n)
    ensures PeerOk(Wrote(p, kernel), n) && Wrote(p, kernel).replies == p.replies
  {
    hide Frames, Requested, Fits;
    var out := Pending(p);
    assert Frames(p.replies) == p.sent + out;
    if out != [] && kernel(|out|).Took? && kernel(|out|).n <= |out| {
      var k := kernel(|out|).n;
      assert p.sent + out == p.sent + out[..k] + out[k..];
    }
  }

  /** Answers to all new commands bring a connection up to date. */
  lemma AnsweredOk(p: Peer, q: Peer, rs: seq<Res>, n: nat)
    requires PeerOk(p, n) && p.received <= q.received && q.replies == p.replies && q.sent == p.sent
    requires |rs| == |Unanswered(q)| && (n + |rs| <= TWO_63 ==> forall r <- rs :: Fits(r))
    ensures PeerOk(q.(replies := q.replies + rs), n + |rs|)
  {
    hide Frames, Requested, Fits;
    CommandsGrow(p.received, q.received[|p.received|..]);
    assert p.received + q.received[|p.received|..] == q.received;
    FramesGrow(p.replies, rs);
  }

  /** Reading keeps the connection in order, and the store bounded. */
  lemma ReadsOk(p: Peer, p': Peer, closing: bool, a: Stock, b: Stock, input: Input, clock: nat -> nat, kernel: Kernel,
                lib: A.Library, t: nat, till: nat, n: nat)
    requires Reads(p, p', closing, a, b, input, clock, kernel, lib) && PeerOk(p, n) && Bounded(a.s, t, n) && Sane(lib)
    requires t <= till && (forall i :: t <= clock(i) <= till) && forall i, j | i <= j :: clock(i) <= clock(j)
    ensures |p'.replies| >= |p.replies| && PeerOk(p', n + |p'.replies| - |p.replies|)
    ensures Bounded(b.s, till, n + |p'.replies| - |p.replies|)
  {
    hide PeerOk, Bounded, Handed, Run, Wrote, WriteFails, Unanswered, Requested;
    if input.Chunk? {
      var q := p.(received := p.received + input.data);
      var rs :| Answered(q, a, b, clock, lib, rs) && p' == Wrote(q.(replies := q.replies + rs), kernel);
      var states :| Run(states, Unanswered(q), clock, lib, rs) && states[0] == a.s && states[|states| - 1] == b.s;
      var k := |rs|;
      RunBounded(states, Unanswered(q), clock, lib, rs, t, n, k);
      Later(b.s, if k == 0 then t else clock(k - 1), till, n + k);
      AnsweredOk(p, q, rs, n);
      WroteOk(q.(replies := q.replies + rs), kernel, n + k);
    } else {
      Later(a.s, t, till, n);
    }
  }

  lemma MoreServed(p: Peer, n: nat, m: nat)
    requires PeerOk(p, n) && n <= m
    ensures PeerOk(p, m)
  {
  }

  lemma NewPeerOk(n: nat)
    ensures PeerOk(Peer([], [], []), n)
  {
  }

  /** Expiry takes deadlines and values away. */
  lemma ExpiryKeepsBound(s: A.Abs, s': A.Abs, now: nat, gone: set<Bytes>, t: nat, n: nat)
    requires A.ExpiryStep(s, s', now, gone) && Bounded(s, t, n) && t <= now
    ensures Bounded(s', now, n)
  {
  }

  // ----- the idle list -----

  lemma IdleLater(w: World, now: nat, later: nat)
    requires IdleOk(w, now) && now <= later
    ensures IdleOk(w, later)
  {
  }

  /** A connection at the end of the list, active now. */
  lemma IdleAppend(w: World, w': World, fd: nat, t: nat, now: nat)
    requires IdleOk(w, t) && t <= now && fd !in w.peers
    requires w'.idle == w.idle + [fd] && w'.active == w.active[fd := now] && w'.peers.Keys == w.peers.Keys + {fd}
    ensures IdleOk(w', now)
  {
    NoDupAppend(w.idle, [fd]);
    ElemsConcat(w.idle, [fd]);
    forall i | 0 <= i < |w.idle| ensures w.idle[i] in w.active && w.idle[i] != fd { assert w.idle[i] in Elems(w.idle); }
  }

  /** The order of the list without one of its members. */
  lemma ActivityWithout(a: seq<nat>, fd: nat, b: seq<nat>, active: map<nat, nat>)
    requires ByActivity(a + [fd] + b, active) && NoDup(a + [fd] + b)
    ensures ByActivity(a + b, active - {fd})
  {
    var s, u, rest := a + [fd] + b, a + b, active - {fd};
    forall i | 0 <= i < |u| ensures u[i] in rest {
      var i' := if i < |a| then i else i + 1;
      assert s[i'] == u[i] && s[|a|] == fd;
    }
    forall i, j | 0 <= i < j < |u| ensures rest[u[i]] <= rest[u[j]] {
      var i', j' := if i < |a| then i else i + 1, if j < |a| then j else j + 1;
      assert s[i'] == u[i] && s[j'] == u[j];
    }
  }

  /** A connection taken out of the list. */
  lemma IdleWithout(w: World, w': World, fd: nat, t: nat)
    requires IdleOk(w, t) && fd in w.peers
    requires w'.idle == Without(w.idle, fd) && w'.active == w.active - {fd} && w'.peers.Keys == w.peers.Keys - {fd}
    ensures IdleOk(w', t)
  {
    hide ByActivity, NoDup;
    assert fd in Elems(w.idle);
    WithoutNoDup(w.idle, fd);
    var k :| 0 <= k < |w.idle| && w.idle[k] == fd;
    var a, b := w.idle[..k], w.idle[k + 1..];
    assert w.idle == a + [fd] + b;
    NoDupConcat(a, fd, b);
    WithoutSplit(a, fd, b);
    ActivityWithout(a, fd, b, w.active);
  }

  /** The connection that poll reports goes to the end of the list, or out of it. */
  lemma IdlePolled(w: World, w': World, ev: Event, lib: A.Library, p': Peer, closing: bool, t: nat)
    requires Reported(w, ev) && PolledStep(w, w', ev, lib, p', closing) && IdleOk(w, t) && t <= ev.now
    ensures IdleOk(w', ev.now)
  {
    hide IdleOk, Handled;
    var fd := ev.fd;
    var out := w.(idle := Without(w.idle, fd), active := w.active - {fd}, peers := w.peers - {fd});
    IdleWithout(w, out, fd, t);
    if closing || ev.pollErr {
      IdleLater(out, t, ev.now);
      SameIdle(out, w', ev.now);
    } else {
      assert w.active[fd := ev.now] == out.active[fd := ev.now];
      IdleAppend(out, w', fd, t, ev.now);
    }
  }

  lemma SameIdle(w: World, w': World, now: nat)
    requires IdleOk(w, now) && w'.idle == w.idle && w'.active == w.active && w'.peers.Keys == w.peers.Keys
    ensures IdleOk(w', now)
  {
  }

  /** The list without its first members. */
  lemma ActivityDrop(a: seq<nat>, b: seq<nat>, active: map<nat, nat>)
    requires ByActivity(a + b, active) && NoDup(a + b)
    ensures ByActivity(b, active - Elems(a)) && NoDup(b) && Elems(b) == Elems(a + b) - Elems(a)
  {
    var s := a + b;
    ElemsConcat(a, b);
    assert forall i | 0 <= i < |b| :: b[i] == s[|a| + i];
    forall i | 0 <= i < |b| ensures b[i] !in a { assert forall j | 0 <= j < |a| :: a[j] == s[j] != s[|a| + i]; }
    forall i, j | 0 <= i < j < |b| ensures active[b[i]] <= active[b[j]] {
      assert s[|a| + i] == b[i] && s[|a| + j] == b[j];
    }
  }

  /** Being in the first part of the list is being timed out. */
  lemma TimedOutFirst(w: World, now: nat, k: nat)
    requires TimedOut(w, now, k) && Elems(w.idle) == w.active.Keys
    ensures k <= |w.idle|
    ensures var a := Elems(w.idle[..k]);
            w.active.Keys - a <= (set fd | fd in w.active && w.active[fd] + IDLE_TIMEOUT_MS > now) <= w.active.Keys - a
  {
    var a := w.idle[..k];
    forall fd | fd in w.active ensures fd in Elems(a) <==> w.active[fd] + IDLE_TIMEOUT_MS <= now {
      assert fd in Elems(w.idle);
      var i :| 0 <= i < |w.idle| && w.idle[i] == fd;
      if i < k { assert a[i] == fd; }
      if fd in a { var j :| 0 <= j < k && a[j] == fd; assert w.idle[j] == fd; }
    }
  }

  /** The timers close exactly the connections that have been idle for the timeout. */
  lemma IdleTimers(w: World, w': World, now: nat, k: nat, gone: set<Bytes>, t: nat)
    requires TimersStep(w, w', now, k, gone) && IdleOk(w, t) && t <= now
    ensures IdleOk(w', now)
    ensures w'.peers.Keys == set fd | fd in w.active && w.active[fd] + IDLE_TIMEOUT_MS > now
  {
    hide A.ExpiryStep, ByActivity, NoDup, Departed, TimedOut, Elems;
    TimedOutFirst(w, now, k);
    var a, b := w.idle[..k], w.idle[k..];
    assert w.idle == a + b;
    ActivityDrop(a, b, w.active);
    assert w'.peers.Keys == w.peers.Keys - Elems(a);
  }

  /** Handling a connection that poll reports. */
  lemma PolledOk(w: World, w': World, ev: Event, lib: A.Library, p': Peer, closing: bool, t: nat)
    requires Reported(w, ev) && PolledStep(w, w', ev, lib, p', closing) && WorldOk(w, t) && InTime(t, ev) && Sane(lib)
    ensures WorldOk(w', After(t, ev))
  {
    hide PeerOk, Bounded, IdleOk, Reads, Wrote, WriteFails, Readable, Writable;
    var p, n := w.peers[ev.fd], w.served;
    IdlePolled(w, w', ev, lib, p', closing, t);
    IdleLater(w', ev.now, ev.till);
    if Readable(p, ev) {
      ReadsOk(p, p', closing, StockOf(w), StockOf(w'), ev.input, ev.clock, ev.kernel, lib, t, ev.till, n);
    } else {
      Later(w.s, t, ev.till, n);
      WroteOk(p, ev.kernel, n);
    }
    forall fd | fd in w'.peers ensures PeerOk(w'.peers[fd], w'.served) {
      if fd != ev.fd { MoreServed(w.peers[fd], n, w'.served); }
    }
  }

  /** Every event keeps a world in order. */
  lemma EventKeepsOk(w: World, w': World, ev: Event, lib: A.Library, t: nat)
    requires EventStep(w, w', ev, lib) && WorldOk(w, t) && InTime(t, ev) && Sane(lib)
    ensures WorldOk(w', After(t, ev))
  {
    hide PeerOk, Bounded, IdleOk, PolledStep, Reported, A.ExpiryStep, TimedOut;
    match ev
    case Accept(fd, now) =>
      Later(w.s, t, now, w.served);
      NewPeerOk(w.served);
      if fd in w.peers { IdleLater(w, t, now); } else { IdleAppend(w, w', fd, t, now); }
    case Polled(_, _, _, _, _, _, _, _, _, _) =>
      if Reported(w, ev) {
        var p', closing :| PolledStep(w, w', ev, lib, p', closing);
        PolledOk(w, w', ev, lib, p', closing, t);
      } else {
        Later(w.s, t, After(t, ev), w.served);
        IdleLater(w, t, After(t, ev));
      }
    case Timers(now) =>
      var k, gone :| TimersStep(w, w', now, k, gone);
      ExpiryKeepsBound(w.s, w'.s, now, gone, t, w.served);
      IdleTimers(w, w', now, k, gone, t);
    case WorkerTakes => SameIdle(w, w', t);
    case WorkerFinishes => SameIdle(w, w', t);
  }

  /** What the clock has shown by the i-th world. */
  function ClockAt(t: nat, events: seq<Event>, i: nat): nat
    requires i <= |events|
  {
    if i == 0 then t else After(ClockAt(t, events, i - 1), events[i - 1])
  }

  lemma {:induction false} TimelyAt(t: nat, events: seq<Event>, i: nat)
    requires Timely(t, events) && i <= |events|
    ensures Timely(ClockAt(t, events, i), events[i..])
  {
    if i == 0 {
      assert events[0..] == events;
    } else {
      TimelyAt(t, events, i - 1);
      var c := ClockAt(t, events, i - 1);
      TimelyNext(c, c, events, i - 1);
    }
  }

  /** Every world of a history is in order. */
  lemma {:induction false} HistoryOk(ws: seq<World>, events: seq<Event>, lib: A.Library, t: nat, i: nat)
    requires History(ws, events, lib) && Timely(t, events) && WorldOk(ws[0], t) && Sane(lib) && i < |ws|
    ensures WorldOk(ws[i], ClockAt(t, events, i))
  {
    hide WorldOk, EventStep, InTime;
    if i > 0 {
      HistoryOk(ws, events, lib, t, i - 1);
      TimelyAt(t, events, i - 1);
      var c := ClockAt(t, events, i - 1);
      TimelyNext(c, c, events, i - 1);
      assert EventStep(ws[i - 1], ws[i - 1 + 1], events[i - 1], lib);
      EventKeepsOk(ws[i - 1], ws[i], events[i - 1], lib, c);
    }
  }

  lemma StartIsOk()
    ensures WorldOk(Start(), 0)
  {
  }

  /**
   * In every history from the start, a client whose connection has nothing pending has received, and
   * reads, one well-formed reply for every command it has sent, up to the first bad request.
   */
  lemma ClientsReadTheirAnswers(ws: seq<World>, events: seq<Event>, lib: A.Library, i: nat, fd: nat)
    requires History(ws, events, lib) && Timely(0, events) && Sane(lib) && i < |ws|
    requires ws[0] == Start()
    requires ws[i].served <= TWO_63 && fd in ws[i].peers && Pending(ws[i].peers[fd]) == []
    ensures var p := ws[i].peers[fd];
            && ReadReplies(p.sent) == Some(RepliesTo(p.replies)) && |p.replies| == |Requested(p.received).cmds|
  {
    hide Requested, ReadReplies, Fits, History, Timely;
    HistoryOk(ws, events, lib, 0, i);
    var p := ws[i].peers[fd];
    WrittenAll(p, ws[i].served);
    RepliesAreRead(p.replies);
  }

  lemma WrittenAll(p: Peer, n: nat)
    requires PeerOk(p, n) && Pending(p) == []
    ensures p.sent == Frames(p.replies)
  {
    hide Frames;
    assert Frames(p.replies) == p.sent + Pending(p);
  }

  /** The chunk that an event brings in on a connection, if it brings one. */
  function Brought(w: World, ev: Event, fd: nat): seq<Bytes> {
    if ev.Polled? && ev.fd == fd && Reported(w, ev) && Readable(w.peers[fd], ev) && ev.input.Chunk?
    then [ev.input.data] else []
  }

  /** The chunks read on a connection since it was accepted, in the order of the events. */
  function ChunksOf(ws: seq<World>, events: seq<Event>, fd: nat, i: nat): seq<Bytes>
    requires i < |ws| <= |events| + 1
  {
    if i == 0 || fd !in ws[i - 1].peers then []
    else ChunksOf(ws, events, fd, i - 1) + Brought(ws[i - 1], events[i - 1], fd)
  }

  lemma EventBrings(w: World, w': World, ev: Event, lib: A.Library, fd: nat)
    requires EventStep(w, w', ev, lib) && fd in w'.peers
    ensures w'.peers[fd].received == if fd in w.peers then w.peers[fd].received + Concat(Brought(w, ev, fd)) else []
  {
    hide A.ExpiryStep, Answered, Requested, Concat;
    OneChunk(if ev.Polled? && ev.input.Chunk? then ev.input.data else []);
  }

  lemma OneChunk(data: Bytes)
    ensures Concat([data]) == data && Concat([]) == []
  {
    assert [data][..0] == [];
  }

  lemma MoreChunks(chunks: seq<Bytes>, more: seq<Bytes>)
    requires |more| <= 1
    ensures Concat(chunks + more) == Concat(chunks) + Concat(more)
  {
    if more == [] {
      assert chunks + more == chunks;
    } else {
      OneChunk(more[0]);
      assert more == [more[0]] && (chunks + more)[..|chunks|] == chunks;
    }
  }

  /** What a connection has received are those chunks. */
  lemma {:induction false} ReceivedIsInput(ws: seq<World>, events: seq<Event>, lib: A.Library, fd: nat, i: nat)
    requires History(ws, events, lib) && ws[0].peers == map[] && i < |ws| && fd in ws[i].peers
    ensures ws[i].peers[fd].received == Concat(ChunksOf(ws, events, fd, i))
  {
    hide EventStep, Concat;
    OneChunk([]);
    if i > 0 {
      assert EventStep(ws[i - 1], ws[i - 1 + 1], events[i - 1], lib);
      EventBrings(ws[i - 1], ws[i], events[i - 1], lib, fd);
      if fd in ws[i - 1].peers {
        ReceivedIsInput(ws, events, lib, fd, i - 1);
        MoreChunks(ChunksOf(ws, events, fd, i - 1), Brought(ws[i - 1], events[i - 1], fd));
      }
    }
  }

  // ----- the replies -----

  /** As many replies as commands received. */
  ghost predicate UpToDate(p: Peer) { |p.replies| == |Requested(p.received).cmds| }

  /** Command m of a run of commands, and its response. */
  ghost predicate RunHas(states: seq<A.Abs>, cmds: seq<Command>, rs: seq<Res>, m: int, cmd: Command, r: Res) {
    0 <= m < |cmds| == |rs| && |states| == |cmds| + 1 && cmds[m] == cmd && rs[m] == r
  }

  /**
   * Command k of a connection was answered with r in the step from w to w': the commands of one read run from
   * the one store to the other and hand over their entries, and this is one of them.
   */
  ghost predicate AnsweredBetween(w: World, w': World, ev: Event, lib: A.Library, fd: nat, k: nat, cmd: Command, r: Res)
  {
    && ev.Polled? && ev.fd == fd && fd in w.peers
    && exists states: seq<A.Abs>, cmds: seq<Command>, rs: seq<Res> ::
         && Run(states, cmds, ev.clock, lib, rs) && states[0] == w.s && states[|cmds|] == w'.s
         && Handed(states, w.owners, w'.owners)
         && RunHas(states, cmds, rs, k - |w.peers[fd].replies|, cmd, r)
  }

  /** So r is what the abstract store answers. */
  lemma AnsweredMeans(w: World, w': World, ev: Event, lib: A.Library, fd: nat, k: nat, cmd: Command, r: Res)
    requires AnsweredBetween(w, w', ev, lib, fd, k, cmd, r)
    ensures !A.Aborts(cmd, lib) && exists s, now, s' :: A.Answers(s, cmd, now, lib, s', r)
  {
    hide A.Answers, A.Aborts;
    var m := k - |w.peers[fd].replies|;
    var states, cmds, rs :| Run(states, cmds, ev.clock, lib, rs) && RunHas(states, cmds, rs, m, cmd, r);
    assert RunHas(states, cmds, rs, m, cmd, r) && 0 <= m < |cmds|;
    assert A.Answers(states[m], cmds[m], ev.clock(m), lib, states[m + 1], rs[m]);
  }

  /** Reading answers all that has arrived, and the replies given before stay. */
  lemma ReadAnswers(w: World, w': World, ev: Event, lib: A.Library, p': Peer, closing: bool, k: nat)
    requires ev.Polled? && ev.fd in w.peers && UpToDate(w.peers[ev.fd])
    requires Reads(w.peers[ev.fd], p', closing, StockOf(w), StockOf(w'), ev.input, ev.clock, ev.kernel, lib)
    ensures UpToDate(p')
    ensures k < |p'.replies| ==>
              if k < |w.peers[ev.fd].replies|
              then p'.replies[k] == w.peers[ev.fd].replies[k]
              else AnsweredBetween(w, w', ev, lib, ev.fd, k, Requested(p'.received).cmds[k], p'.replies[k])
  {
    hide Requested, Run, Wrote, WriteFails, RunHas, Handed;
    if ev.input.Chunk? {
      var p := w.peers[ev.fd];
      var q := p.(received := p.received + ev.input.data);
      CommandsGrow(p.received, ev.input.data);
      var rs :| Answered(q, StockOf(w), StockOf(w'), ev.clock, lib, rs) &&
                p' == Wrote(q.(replies := q.replies + rs), ev.kernel);
      var states :| Run(states, Unanswered(q), ev.clock, lib, rs) && states[0] == w.s && states[|states| - 1] == w'.s &&
                    Handed(states, w.owners, w'.owners);
      OnlySent(q.(replies := q.replies + rs), ev.kernel);
      NoMoreReplies(p, q, rs);
      if |p.replies| <= k < |p'.replies| { NewReply(p, q, states, rs, k); }
    }
  }

  lemma NewUpToDate()
    ensures UpToDate(Peer([], [], []))
  {
  }

  /** Writing changes neither what has been received nor the replies. */
  lemma OnlySent(p: Peer, kernel: Kernel)
    ensures Wrote(p, kernel).received == p.received && Wrote(p, kernel).replies == p.replies
  {
  }

  lemma NoMoreReplies(p: Peer, q: Peer, rs: seq<Res>)
    requires UpToDate(p) && q.replies == p.replies
    requires |p.replies| <= |Requested(q.received).cmds| && |Unanswered(q)| == |rs|
    ensures |p.replies + rs| == |Requested(q.received).cmds|
  {
    hide Requested;
  }

  lemma NewReply(p: Peer, q: Peer, states: seq<A.Abs>, rs: seq<Res>, k: nat)
    requires UpToDate(p) && q.replies == p.replies && |p.replies| <= k < |p.replies + rs|
    requires |p.replies| <= |Requested(q.received).cmds| && |Unanswered(q)| == |rs| && |states| == |rs| + 1
    ensures |p.replies + rs| == |Requested(q.received).cmds|
    ensures RunHas(states, Unanswered(q), rs, k - |p.replies|, Requested(q.received).cmds[k], (p.replies + rs)[k])
  {
    hide Requested;
  }

  /** The commands of a longer input begin with those of the shorter. */
  lemma CommandStays(a: Bytes, b: Bytes, k: nat)
    requires k < |Requested(a).cmds|
    ensures k < |Requested(a + b).cmds| && Requested(a + b).cmds[k] == Requested(a).cmds[k]
  {
    RequestedContinue(a, b);
  }

  /** After an event every command received has its reply: the one it had, or one given in that event. */
  lemma EventAnswers(w: World, w': World, ev: Event, lib: A.Library, fd: nat, k: nat)
    requires EventStep(w, w', ev, lib) && fd in w'.peers && (fd in w.peers ==> UpToDate(w.peers[fd]))
    ensures UpToDate(w'.peers[fd])
    ensures var p := w'.peers[fd];
            k < |p.replies| ==>
              if fd in w.peers && k < |w.peers[fd].replies|
              then p.replies[k] == w.peers[fd].replies[k]
              else AnsweredBetween(w, w', ev, lib, fd, k, Requested(p.received).cmds[k], p.replies[k])
  {
    hide A.ExpiryStep, Reads, Requested, AnsweredBetween;
    NewUpToDate();
    if ev.Polled? && fd == ev.fd && Reported(w, ev) {
      var p', closing :| PolledStep(w, w', ev, lib, p', closing);
      if Readable(w.peers[fd], ev) { ReadAnswers(w, w', ev, lib, p', closing, k); }
    }
  }

  lemma {:induction false} RepliesUpToDate(ws: seq<World>, events: seq<Event>, lib: A.Library, fd: nat, i: nat)
    requires History(ws, events, lib) && ws[0].peers == map[] && i < |ws| && fd in ws[i].peers
    ensures UpToDate(ws[i].peers[fd])
  {
    hide EventStep, AnsweredBetween, UpToDate;
    assert EventStep(ws[i - 1], ws[i - 1 + 1], events[i - 1], lib);
    if fd in ws[i - 1].peers { RepliesUpToDate(ws, events, lib, fd, i - 1); }
    EventAnswers(ws[i - 1], ws[i], events[i - 1], lib, fd, 0);
  }

  /**
   * In every history reply k of a connection answers its command k: it was given in one of the events, from a
   * store that the events before it and the commands read with it have made.
   */
  lemma {:induction false} RepliesAreAnswers(ws: seq<World>, events: seq<Event>, lib: A.Library, fd: nat, i: nat,
                                             k: nat)
    requires History(ws, events, lib) && ws[0].peers == map[] && i < |ws| && fd in ws[i].peers
    requires k < |ws[i].peers[fd].replies|
    ensures UpToDate(ws[i].peers[fd])
    ensures var p := ws[i].peers[fd];
            exists j | 0 <= j < i ::
              AnsweredBetween(ws[j], ws[j + 1], events[j], lib, fd, k, Requested(p.received).cmds[k], p.replies[k])
  {
    hide EventStep, AnsweredBetween, Requested;
    var w, w', ev := ws[i - 1], ws[i], events[i - 1];
    assert EventStep(ws[i - 1], ws[i - 1 + 1], events[i - 1], lib);
    if fd in w.peers {
      RepliesUpToDate(ws, events, lib, fd, i - 1);
      EventBrings(w, w', ev, lib, fd);
      if k < |w.peers[fd].replies| {
        RepliesAreAnswers(ws, events, lib, fd, i - 1, k);
        CommandStays(w.peers[fd].received, Concat(Brought(w, ev, fd)), k);
      }
    }
    EventAnswers(w, w', ev, lib, fd, k);
  }

  // ----- the entries -----

  /** The entries that have left the index: queued, with a worker, or freed. */
  ghost function Retired(o: Ledger): set<Entry> { Elems(o.queue) + o.running + Elems(o.freed) }

  /** No entry is lost, none comes back into the index, and the record keeps the order in which they were freed. */
  ghost predicate Retained(a: Ledger, b: Ledger) {
    Ever(a) <= Ever(b) && Retired(a) <= Retired(b) && a.freed <= b.freed
  }

  lemma TasksRetain(a: Ledger, b: Ledger)
    requires Taken(a, b) || Finished(a, b)
    ensures Retained(a, b)
  {
    if a.queue != [] { assert a.queue == [a.queue[0]] + a.queue[1..]; ElemsConcat([a.queue[0]], a.queue[1..]); }
    forall e ensures Elems(a.freed + [e]) == Elems(a.freed) + {e} { ElemsConcat(a.freed, [e]); }
  }

  lemma EventRetains(w: World, w': World, ev: Event, lib: A.Library)
    requires EventStep(w, w', ev, lib)
    ensures Retained(w.owners, w'.owners)
  {
    hide A.ExpiryStep, TimedOut, Reported, Taken, Finished, Departed, Passed, Retained;
    NonePassed(w.owners, {});
    if ev.Polled? && Reported(w, ev) {
      var p', closing :| PolledStep(w, w', ev, lib, p', closing);
      PassedRetains(w.owners, w'.owners);
    } else if ev.Timers? {
      var k, gone :| TimersStep(w, w', ev.now, k, gone);
      DepartedPassed(w.owners, w'.owners, gone, A.LargeKeys(w.s.values));
      PassedRetains(w.owners, w'.owners);
    } else if ev.WorkerTakes? || ev.WorkerFinishes? {
      TasksRetain(w.owners, w'.owners);
    } else {
      PassedRetains(w.owners, w'.owners);
    }
  }

  lemma PassedRetains(a: Ledger, b: Ledger)
    requires Passed(a, b)
    ensures Retained(a, b)
  {
  }

  /** In every history no entry is lost, and none that has left the index comes back. */
  lemma {:induction false} EntriesAreRetained(ws: seq<World>, events: seq<Event>, lib: A.Library, i: nat, j: nat)
    requires History(ws, events, lib) && i <= j < |ws|
    ensures Retained(ws[i].owners, ws[j].owners)
  {
    hide EventStep;
    if i < j {
      EntriesAreRetained(ws, events, lib, i, j - 1);
      assert EventStep(ws[j - 1], ws[j - 1 + 1], events[j - 1], lib);
      EventRetains(ws[j - 1], ws[j], events[j - 1], lib);
    }
  }
}
