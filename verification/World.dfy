/**
 * The server as a value: what it has read, answered and written on every connection, the store
 * behind it, and what every event makes of that.
 */
module Worlds {
  import opened Names
  import opened Seqs
  import opened Requests
  import opened Responses
  import opened Output
  import opened IdleList
  import opened Entries
  import opened Ledgers
  import A = Abstract

  const READ_SIZE := 64 * 1024

  /** What a non-blocking read gives. */
  datatype Input = NothingYet | ReadFailed | EndOfFile | Chunk(data: Bytes)

  /** What a non-blocking write gives: how many bytes the kernel took. */
  datatype Written = NotNow | WriteFailed | Took(n: nat)

  /** The kernel's answer to a write, by the number of bytes offered. */
  type Kernel = nat -> Written

  // ----- one connection -----

  /** The bytes of the replies to rs, one frame each. */
  function Frames(rs: seq<Res>): Bytes {
    if rs == [] then [] else Frames(rs[..|rs| - 1]) + Frame(Encode(Reply(rs[|rs| - 1])))
  }

  lemma FramesAppend(rs: seq<Res>, r: Res)
    ensures Frames(rs + [r]) == Frames(rs) + Frame(Encode(Reply(r)))
  {
  }

  /** All that has been read, the responses so far, and all that has been written. */
  datatype Peer = Peer(received: Bytes, replies: seq<Res>, sent: Bytes)

  /** The output still to be written. */
  function Pending(p: Peer): Bytes {
    if |p.sent| <= |Frames(p.replies)| then Frames(p.replies)[|p.sent|..] else []
  }

  /** The commands that have arrived and have not been answered. */
  function Unanswered(p: Peer): seq<Command> {
    var cmds := Requested(p.received).cmds;
    if |p.replies| <= |cmds| then cmds[|p.replies|..] else []
  }

  /** A write of all pending output, if there is any. */
  function Wrote(p: Peer, kernel: Kernel): Peer {
    var out := Pending(p);
    if out != [] && kernel(|out|).Took? &&
        kernel(|out|).n <= |out| then p.(sent := p.sent + out[..kernel(|out|).n]) else p
  }

  predicate WriteFails(p: Peer, kernel: Kernel) { Pending(p) != [] && kernel(|Pending(p)|).WriteFailed? }

  /**
   * A run of commands: states[i] is the store before command i, which is answered with rs[i] when
   * the clock shows clock(i).
   */
  ghost predicate Run(states: seq<A.Abs>, cmds: seq<Command>, clock: nat -> nat, lib: A.Library, rs: seq<Res>)
    ensures Run(states, cmds, clock, lib, rs) ==> |states| == |cmds| + 1 && |rs| == |cmds|
  {
    && |states| == |cmds| + 1 && |rs| == |cmds|
    && forall i :: 0 <= i < |cmds| ==>
         !A.Aborts(cmds[i], lib) && A.Answers(states[i], cmds[i], clock(i), lib, states[i + 1], rs[i])
  }

  lemma RunAppend(states: seq<A.Abs>, cmds: seq<Command>, clock: nat -> nat, lib: A.Library, rs: seq<Res>, cmd: Command,
                  s: A.Abs, r: Res)
    requires Run(states, cmds, clock, lib, rs) && !A.Aborts(cmd, lib)
    requires A.Answers(states[|cmds|], cmd, clock(|cmds|), lib, s, r)
    ensures Run(states + [s], cmds + [cmd], clock, lib, rs + [r])
  {
  }

  /**
   * From store a the unanswered commands of p run to store b, with responses rs; the entries change owners as the
   * commands create and delete keys.
   */
  ghost predicate Answered(p: Peer, a: Stock, b: Stock, clock: nat -> nat, lib: A.Library, rs: seq<Res>) {
    exists states: seq<A.Abs> ::
      && Run(states, Unanswered(p), clock, lib, rs) && states[0] == a.s && states[|states| - 1] == b.s
      && Handed(states, a.o, b.o)
  }

  /** What reading makes of a connection and the store; closing says whether the server closes it. */
  ghost predicate Reads(p: Peer, p': Peer, closing: bool, a: Stock, b: Stock, input: Input, clock: nat -> nat,
                        kernel: Kernel, lib: A.Library)
  {
    match input
    case NothingYet => p' == p && !closing && b == a
    case ReadFailed => p' == p && closing && b == a
    case EndOfFile => p' == p && closing && b == a
    case Chunk(data) =>
      var q := p.(received := p.received + data);
      exists rs: seq<Res> ::
        var q' := q.(replies := q.replies + rs);
        && Answered(q, a, b, clock, lib, rs) && p' == Wrote(q', kernel)
        && closing == (Requested(q.received).bad || WriteFails(q', kernel))
  }

  /** The process gets through the commands of a read: no assertion stops it. */
  ghost predicate Survives(p: Peer, input: Input, lib: A.Library) {
    input.Chunk? ==> forall c <- Unanswered(p.(received := p.received + input.data)) :: !A.Aborts(c, lib)
  }

  lemma SurvivesMeans(p: Peer, data: Bytes, lib: A.Library)
    ensures Survives(p, Chunk(data), lib) <==>
              forall c <- Unanswered(p.(received := p.received + data)) :: !A.Aborts(c, lib)
  {
  }

  lemma RunSurvives(states: seq<A.Abs>, ran: seq<Command>, clock: nat -> nat, lib: A.Library, rs: seq<Res>)
    requires Run(states, ran, clock, lib, rs)
    ensures forall c <- ran :: !A.Aborts(c, lib)
  {
  }

  lemma ReadsChunk(p: Peer, p': Peer, closing: bool, data: Bytes, states: seq<A.Abs>, ran: seq<Command>, o: Ledger,
                   o': Ledger, clock: nat -> nat, kernel: Kernel, lib: A.Library, rs: seq<Res>)
    requires Handed(states, o, o')
    requires var q := p.(received := p.received + data); var q' := q.(replies := q.replies + rs);
             && Unanswered(q) == ran && Run(states, ran, clock, lib, rs) && p' == Wrote(q', kernel)
             && closing == (Requested(q.received).bad || WriteFails(q', kernel))
    ensures Reads(p, p', closing, Stock(states[0], o), Stock(states[|ran|], o'), Chunk(data), clock, kernel, lib)
  {
    hide Handed;
    var q := p.(received := p.received + data);
    assert Answered(q, Stock(states[0], o), Stock(states[|ran|], o'), clock, lib, rs);
  }

  // ----- the server -----

  /**
   * The store and its entries' owners; the connections by descriptor, when they were last active, and the
   * list of them, the longest idle first; how many commands have been served.
   */
  datatype World = World(s: A.Abs, peers: map<nat, Peer>, idle: seq<nat>, active: map<nat, nat>, served: nat,
      owners: Ledger)

  function StockOf(w: World): Stock { Stock(w.s, w.owners) }

  /** An empty store and no connection. */
  ghost function Start(): World { World(A.Abs(map[], map[]), map[], [], map[], 0, Ledger({}, [], {}, [])) }

  /**
   * What can happen between two looks at the clock; till is the latest that an event shows.  pollOther stands
   * for the conditions that poll may report unasked besides an error, a hangup for one.
   */
  datatype Event =
    | Accept(fd: nat, now: nat)
    | Polled(fd: nat, now: nat, pollIn: bool, pollOut: bool, pollErr: bool, pollOther: bool, input: Input,
             clock: nat -> nat, till: nat, kernel: Kernel)
    | Timers(now: nat)
    | WorkerTakes
    | WorkerFinishes

  /** A read fits its buffer, and the kernel takes at most what it is given. */
  ghost predicate Possible(ev: Event) {
    ev.Polled? ==>
      && (ev.input.Chunk? ==> 0 < |ev.input.data| <= READ_SIZE)
      && forall n :: ev.kernel(n).Took? ==> ev.kernel(n).n <= n
  }

  /** poll reports reading only without pending output, and writing only with it: what was asked for. */
  predicate Readable(p: Peer, ev: Event)
    requires ev.Polled?
  {
    ev.pollIn && Pending(p) == []
  }

  predicate Writable(p: Peer, ev: Event)
    requires ev.Polled?
  {
    ev.pollOut && Pending(p) != []
  }

  predicate Reported(w: World, ev: Event) {
    ev.Polled? && ev.fd in w.peers &&
    (Readable(w.peers[ev.fd], ev) || Writable(w.peers[ev.fd], ev) || ev.pollErr || ev.pollOther)
  }

  /** The connection after the handlers have run, and whether one of them wants it closed. */
  ghost predicate Handled(p: Peer, p': Peer, closing: bool, a: Stock, b: Stock, ev: Event, lib: A.Library)
    requires ev.Polled?
  {
    if Readable(p, ev) then Reads(p, p', closing, a, b, ev.input, ev.clock, ev.kernel, lib)
    else if Writable(p, ev) then p' == Wrote(p, ev.kernel) && closing == WriteFails(p, ev.kernel) && b == a
    else p' == p && !closing && b == a
  }

  /** Handling a connection takes no reply back. */
  lemma HandledGrows(p: Peer, p': Peer, closing: bool, a: Stock, b: Stock, ev: Event, lib: A.Library)
    requires ev.Polled? && Handled(p, p', closing, a, b, ev, lib)
    ensures p.replies <= p'.replies && p.received <= p'.received && p.sent <= p'.sent
  {
  }

  /** A connection that poll reports: it is the most recent, it is handled, and perhaps closed. */
  ghost predicate PolledStep(w: World, w': World, ev: Event, lib: A.Library, p': Peer, closing: bool)
    requires Reported(w, ev)
  {
    var p, rest := w.peers[ev.fd], Without(w.idle, ev.fd);
    && Handled(p, p', closing, StockOf(w), StockOf(w'), ev, lib)
    && |p'.replies| >= |p.replies| && w'.served == w.served + |p'.replies| - |p.replies|
    && if closing || ev.pollErr
       then w'.peers == w.peers - {ev.fd} && w'.idle == rest && w'.active == w.active - {ev.fd}
       else w'.peers == w.peers[ev.fd := p'] && w'.idle == rest + [ev.fd] && w'.active == w.active[ev.fd := ev.now]
  }

  /** What becomes of the connection, of the store and of the entries makes the step. */
  lemma IsPolledStep(w: World, w': World, ev: Event, lib: A.Library, p': Peer, closing: bool)
    requires Reported(w, ev) && Handled(w.peers[ev.fd], p', closing, StockOf(w), StockOf(w'), ev, lib)
    requires var fd, close, n := ev.fd, closing || ev.pollErr, w.served + |p'.replies| - |w.peers[ev.fd].replies|;
             n >= w.served
             && w' == World(w'.s, if close then w.peers - {fd} else w.peers[fd := p'],
                            if close then Without(w.idle, fd) else Without(w.idle, fd) + [fd],
                            if close then w.active - {fd} else w.active[fd := ev.now], n, w'.owners)
    ensures EventStep(w, w', ev, lib)
  {
    hide Handled;
    assert PolledStep(w, w', ev, lib, p', closing);
  }

  /** The first k connections in the list have been idle for the timeout, and no other has. */
  ghost predicate TimedOut(w: World, now: nat, k: nat) {
    && k <= |w.idle|
    && (forall i | 0 <= i < k :: w.idle[i] in w.active && w.active[w.idle[i]] + IDLE_TIMEOUT_MS <= now)
    && (forall i | k <= i < |w.idle| :: w.idle[i] in w.active && w.active[w.idle[i]] + IDLE_TIMEOUT_MS > now)
  }

  /** Without the first k connections in the list. */
  ghost function WithoutFirst(w: World, k: nat): World
    requires k <= |w.idle|
  {
    var gone := Elems(w.idle[..k]);
    w.(idle := w.idle[k..], peers := w.peers - gone, active := w.active - gone)
  }

  /** The timers: connections idle for too long are closed, and expired keys go. */
  ghost predicate TimersStep(w: World, w': World, now: nat, k: nat, gone: set<Bytes>) {
    && TimedOut(w, now, k) && A.ExpiryStep(w.s, w'.s, now, gone)
    && Departed(w.owners, w'.owners, gone, A.LargeKeys(w.s.values))
    && w' == WithoutFirst(w, k).(s := w'.s, owners := w'.owners)
  }

  /** With a new connection, the most recent of all. */
  function Admitted(w: World, fd: nat, now: nat): World {
    w.(peers := w.peers[fd := Peer([], [], [])], idle := w.idle + [fd], active := w.active[fd := now])
  }

  /** What one event makes of the server. */
  ghost predicate EventStep(w: World, w': World, ev: Event, lib: A.Library) {
    match ev
    case Accept(fd, now) =>
      if fd in w.peers then w' == w
      else w' == Admitted(w, fd, now)
    case Polled(_, _, _, _, _, _, _, _, _, _) =>
      if Reported(w, ev) then exists p', closing :: PolledStep(w, w', ev, lib, p', closing) else w' == w
    case Timers(now) => exists k, gone :: TimersStep(w, w', now, k, gone)
    case WorkerTakes => Taken(w.owners, w'.owners) && w' == w.(owners := w'.owners)
    case WorkerFinishes => Finished(w.owners, w'.owners) && w' == w.(owners := w'.owners)
  }

  /** No assertion stops the process at this event. */
  ghost predicate Passes(w: World, ev: Event, lib: A.Library) {
    Reported(w, ev) && Readable(w.peers[ev.fd], ev) ==> Survives(w.peers[ev.fd], ev.input, lib)
  }

  /** poll has nothing to report: nothing happens. */
  lemma NotReported(w: World, ev: Event, lib: A.Library)
    requires ev.Polled? && (ev.fd !in w.peers || !Reported(w, ev))
    ensures EventStep(w, w, ev, lib) && Passes(w, ev, lib)
  {
  }

  /** The clock does not run backwards: an event begins no earlier than t. */
  ghost predicate InTime(t: nat, ev: Event) {
    match ev
    case Accept(_, now) => t <= now
    case Polled(_, now, _, _, _, _, _, clock, till, _) =>
      t <= now <= till && (forall i :: now <= clock(i) <= till) && forall i, j | i <= j :: clock(i) <= clock(j)
    case Timers(now) => t <= now
    case WorkerTakes => true
    case WorkerFinishes => true
  }

  /** The time after an event. */
  function After(t: nat, ev: Event): nat {
    match ev
    case Accept(_, now) => now
    case Polled(_, _, _, _, _, _, _, _, till, _) => till
    case Timers(now) => now
    case WorkerTakes => t
    case WorkerFinishes => t
  }

  ghost predicate Timely(t: nat, events: seq<Event>)
    decreases |events|
  {
    events != [] ==> InTime(t, events[0]) && Timely(After(t, events[0]), events[1..])
  }

  /** A history: the worlds between the events. */
  ghost predicate History(ws: seq<World>, events: seq<Event>, lib: A.Library) {
    && 0 < |ws| <= |events| + 1
    && forall i | 0 <= i < |ws| - 1 :: EventStep(ws[i], ws[i + 1], events[i], lib)
  }

  lemma NoHistory(w: World, events: seq<Event>, lib: A.Library)
    ensures History([w], events, lib)
  {
  }

  lemma HistoryNext(ws: seq<World>, events: seq<Event>, w: World, lib: A.Library)
    requires History(ws, events, lib) && |ws| <= |events| && EventStep(ws[|ws| - 1], w, events[|ws| - 1], lib)
    ensures History(ws + [w], events, lib)
  {
    hide EventStep;
    var ws' := ws + [w];
    forall i | 0 <= i < |ws'| - 1 ensures EventStep(ws'[i], ws'[i + 1], events[i], lib) {
      assert i < |ws| - 1 ==> ws'[i + 1] == ws[i + 1];
    }
  }

  /** The next event comes no earlier than an earlier time, and the rest after it. */
  lemma TimelyNext(t0: nat, t: nat, events: seq<Event>, i: nat)
    requires t0 <= t && i < |events| && Timely(t, events[i..])
    ensures InTime(t0, events[i]) && Timely(After(t, events[i]), events[i + 1..]) &&
            After(t0, events[i]) <= After(t, events[i])
  {
    assert events[i..][0] == events[i] && events[i..][1..] == events[i + 1..];
  }
}
