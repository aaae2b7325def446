/**
 * When a connection is closed, and what one poll report moves: in bytes, errors and milliseconds.
 */
module Closings {
  import opened Names
  import opened Seqs
  import opened Bits
  import opened Requests
  import opened Responses
  import opened Output
  import opened Entries
  import opened Ledgers
  import opened Client
  import opened Worlds
  import opened Histories
  import A = Abstract

  // ----- the length of a reply does not depend on the order of the keys -----

  /** The length of an array's items for these keys. */
  function Total(ks: seq<Bytes>): nat { if ks == [] then 0 else Total(ks[..|ks| - 1]) + 5 + |ks[|ks| - 1]| }

  lemma {:induction false} TotalConcat(a: seq<Bytes>, b: seq<Bytes>)
    ensures Total(a + b) == Total(a) + Total(b)
  {
    if b == [] {
      assert a + b == a;
    } else {
      assert (a + b)[..|a + b| - 1] == a + b[..|b| - 1];
      TotalConcat(a, b[..|b| - 1]);
    }
  }

  lemma OneTotal(x: Bytes)
    ensures Total([x]) == 5 + |x|
  {
  }

  lemma {:induction false} TotalOfSet(a: seq<Bytes>, b: seq<Bytes>)
    requires NoDup(a) && NoDup(b) && Elems(a) == Elems(b)
    ensures Total(a) == Total(b)
    decreases |a|
  {
    assert b != [] ==> b[0] in Elems(b);
    if a != [] {
      var x := a[0];
      assert x in Elems(b);
      WithoutNoDup(a, x);
      WithoutNoDup(b, x);
      TotalWithout(a, x);
      TotalWithout(b, x);
      assert |Without(a, x)| == |a| - 1;
      TotalOfSet(Without(a, x), Without(b, x));
    }
  }

  lemma TotalWithout(s: seq<Bytes>, x: Bytes)
    requires NoDup(s) && x in s
    ensures Total(s) == Total(Without(s, x)) + 5 + |x|
  {
    var i :| 0 <= i < |s| && s[i] == x;
    var u, v := s[..i], s[i + 1..];
    assert s == u + [x] + v;
    NoDupConcat(u, x, v);
    WithoutSplit(u, x, v);
    TotalConcat(u + [x], v);
    TotalConcat(u, [x]);
    TotalConcat(u, v);
    OneTotal(x);
  }

  lemma {:induction false} KeysLength(ks: seq<Bytes>)
    ensures |EncodeAll(A.KeyItems(ks))| == Total(ks)
  {
    if ks != [] {
      var n := |ks| - 1;
      KeysLength(ks[..n]);
      EncodeAppend(A.KeyItems(ks[..n]), Str(ks[n]));
    }
  }

  lemma ListsAlike(keys: set<Bytes>, q: Res, r: Res)
    requires A.ListsKeys(q, keys) && A.ListsKeys(r, keys)
    ensures |Encode(q)| == |Encode(r)|
  {
    hide U32;
    var a: seq<Bytes> :| NoDup(a) && Elems(a) == keys && q == Arr(A.KeyItems(a));
    var b: seq<Bytes> :| NoDup(b) && Elems(b) == keys && r == Arr(A.KeyItems(b));
    TotalOfSet(a, b);
    KeysLength(a);
    KeysLength(b);
  }

  /** A command leaves one store and replies of one length. */
  lemma AnswersAlike(s: A.Abs, cmd: Command, now: nat, lib: A.Library, s1: A.Abs, r1: Res, s2: A.Abs, r2: Res)
    requires !A.Aborts(cmd, lib) && A.Answers(s, cmd, now, lib, s1, r1) && A.Answers(s, cmd, now, lib, s2, r2)
    ensures s1 == s2 && |Frame(Encode(Reply(r1)))| == |Frame(Encode(Reply(r2)))|
  {
    hide Ascii, A.CmdIndex, A.Handle, A.ListsKeys, Encode, Frame, Reply;
    if cmd != [] && A.CmdIndex(cmd[0], 0) == 3 && |cmd| == A.CMD_TABLE[3].1 {
      ListsAlike(s.values.Keys, r1, r2);
      FramesAlike(r1, r2);
    }
  }

  lemma FramesAlike(q: Res, r: Res)
    requires |Encode(q)| == |Encode(r)|
    ensures |Frame(Encode(Reply(q)))| == |Frame(Encode(Reply(r)))|
  {
    hide Encode;
  }

  lemma {:induction false} RunsAlike(states: seq<A.Abs>, states': seq<A.Abs>, cmds: seq<Command>, clock: nat -> nat,
                                     lib: A.Library, rs: seq<Res>, rs': seq<Res>, before: seq<Res>, i: nat)
    requires Run(states, cmds, clock, lib, rs) && Run(states', cmds, clock, lib, rs') && states[0] == states'[0]
    requires i <= |cmds|
    ensures states[i] == states'[i] && |Frames(before + rs[..i])| == |Frames(before + rs'[..i])|
  {
    hide A.Answers, A.Aborts, Frame, Encode, Reply, Frames;
    if i == 0 {
      assert before + rs[..0] == before + rs'[..0];
    } else {
      var j := i - 1;
      RunsAlike(states, states', cmds, clock, lib, rs, rs', before, j);
      assert A.Answers(states[j], cmds[j], clock(j), lib, states[j + 1], rs[j]);
      assert A.Answers(states'[j], cmds[j], clock(j), lib, states'[j + 1], rs'[j]);
      AnswersAlike(states[j], cmds[j], clock(j), lib, states[i], rs[j], states'[i], rs'[j]);
      assert before + rs[..i] == before + rs[..j] + [rs[j]] && before + rs'[..i] == before + rs'[..j] + [rs'[j]];
      FramesAppend(before + rs[..j], rs[j]);
      FramesAppend(before + rs'[..j], rs'[j]);
    }
  }

  // ----- closing -----

  /** How many bytes are still to be written, once these replies have been given. */
  ghost function Left(replies: seq<Res>, sent: Bytes): int { |Frames(replies)| - |sent| }

  /**
   * Reading closes the connection: at the end of the stream, on an error, when the stream turns bad, or when the
   * write of the output that follows fails.
   */
  ghost predicate ReadCloses(p: Peer, s: A.Abs, input: Input, clock: nat -> nat, kernel: Kernel, lib: A.Library) {
    match input
    case NothingYet => false
    case ReadFailed => true
    case EndOfFile => true
    case Chunk(data) =>
      var q := p.(received := p.received + data);
      Requested(q.received).bad || exists states, rs ::
        && Run(states, Unanswered(q), clock, lib, rs) && states[0] == s
        && Left(q.replies + rs, q.sent) > 0 && kernel(Left(q.replies + rs, q.sent)).WriteFailed?
  }

  lemma FailsMeans(p: Peer, kernel: Kernel)
    ensures WriteFails(p, kernel) <==> Left(p.replies, p.sent) > 0 && kernel(Left(p.replies, p.sent)).WriteFailed?
    ensures Pending(p) == [] <==> Left(p.replies, p.sent) <= 0
    ensures Left(p.replies, p.sent) > 0 ==> |Pending(p)| == Left(p.replies, p.sent)
  {
    hide Frames;
  }

  lemma ReadClosesExactly(p: Peer, p': Peer, closing: bool, a: Stock, b: Stock, input: Input, clock: nat -> nat,
                          kernel: Kernel, lib: A.Library)
    requires Reads(p, p', closing, a, b, input, clock, kernel, lib)
    ensures closing <==> ReadCloses(p, a.s, input, clock, kernel, lib)
  {
    hide Run, Wrote, WriteFails, Unanswered, Handed, Requested, Left;
    if input.Chunk? {
      var q := p.(received := p.received + input.data);
      var rs :| Answered(q, a, b, clock, lib, rs) &&
                closing == (Requested(q.received).bad || WriteFails(q.(replies := q.replies + rs), kernel));
      var states :| Run(states, Unanswered(q), clock, lib, rs) && states[0] == a.s;
      FailsMeans(q.(replies := q.replies + rs), kernel);
      if states', rs' :| Run(states', Unanswered(q), clock, lib, rs') && states'[0] == a.s &&
                         Left(q.replies + rs', q.sent) > 0 && kernel(Left(q.replies + rs', q.sent)).WriteFailed? {
        SameLeft(q, states, states', clock, lib, rs, rs');
      }
    }
  }

  lemma SameLeft(q: Peer, states: seq<A.Abs>, states': seq<A.Abs>, clock: nat -> nat, lib: A.Library, rs: seq<Res>,
                 rs': seq<Res>)
    requires Run(states, Unanswered(q), clock, lib, rs) && Run(states', Unanswered(q), clock, lib, rs')
    requires states[0] == states'[0]
    ensures Left(q.replies + rs, q.sent) == Left(q.replies + rs', q.sent)
  {
    hide Frames, A.Answers, A.Aborts, Unanswered;
    RunsAlike(states, states', Unanswered(q), clock, lib, rs, rs', q.replies, |rs|);
    assert rs[..|rs|] == rs && rs'[..|rs'|] == rs';
  }

  /** The events that close connection fd, and no others do. */
  ghost predicate Leaves(w: World, ev: Event, lib: A.Library, fd: nat)
    requires fd in w.peers
  {
    match ev
    case Accept(_, _) => false
    case Polled(_, _, pollIn, pollOut, pollErr, _, input, clock, _, kernel) =>
      var left := Left(w.peers[fd].replies, w.peers[fd].sent);
      && ev.fd == fd
      && (|| pollErr
          || (pollIn && left == 0 && ReadCloses(w.peers[fd], w.s, input, clock, kernel, lib))
          || (pollOut && left > 0 && kernel(left).WriteFailed?))
    case Timers(now) => fd in w.active && w.active[fd] + 60000 <= now
    case WorkerTakes => false
    case WorkerFinishes => false
  }

  /**
   * A connection is closed by exactly these events: then it is gone from the server's map, the list of the idle and
   * the record of activity, and else it is in all three.
   */
  lemma LeavesExactly(w: World, w': World, ev: Event, lib: A.Library, t: nat, fd: nat)
    requires EventStep(w, w', ev, lib) && WorldOk(w, t) && InTime(t, ev) && Sane(lib) && fd in w.peers
    ensures fd !in w'.peers <==> Leaves(w, ev, lib, fd)
    ensures (fd in w'.peers <==> fd in w'.idle) && (fd in w'.peers <==> fd in w'.active)
  {
    hide PeerOk, Bounded, A.ExpiryStep, Departed, Reads, ReadCloses, Left, Handed, TimedOut, NoDup, ByActivity;
    EventKeepsOk(w, w', ev, lib, t);
    assert fd in w'.idle <==> fd in Elems(w'.idle);
    if ev.Polled? {
      if ev.fd == fd { PolledLeaves(w, w', ev, lib, t); }
    } else if ev.Timers? {
      var k, gone :| TimersStep(w, w', ev.now, k, gone);
      IdleTimers(w, w', ev.now, k, gone, t);
    }
  }

  lemma PolledLeaves(w: World, w': World, ev: Event, lib: A.Library, t: nat)
    requires ev.Polled? && EventStep(w, w', ev, lib) && WorldOk(w, t) && ev.fd in w.peers
    ensures ev.fd !in w'.peers <==> Leaves(w, ev, lib, ev.fd)
  {
    hide Bounded, Reads, ReadCloses, Left, WriteFails, Wrote, Pending, IdleOk;
    var p := w.peers[ev.fd];
    FailsMeans(p, ev.kernel);
    NotNegative(p, w.served);
    if Reported(w, ev) {
      var p', closing :| PolledStep(w, w', ev, lib, p', closing);
      if Readable(p, ev) {
        ReadClosesExactly(p, p', closing, StockOf(w), StockOf(w'), ev.input, ev.clock, ev.kernel, lib);
      }
    }
  }

  lemma NotNegative(p: Peer, n: nat)
    requires PeerOk(p, n)
    ensures Left(p.replies, p.sent) >= 0
  {
  }

  /** In every history from the start. */
  lemma ClosedExactly(ws: seq<World>, events: seq<Event>, lib: A.Library, i: nat, fd: nat)
    requires History(ws, events, lib) && Timely(0, events) && Sane(lib) && ws[0] == Start()
    requires i + 1 < |ws| && fd in ws[i].peers
    ensures fd !in ws[i + 1].peers <==> Leaves(ws[i], events[i], lib, fd)
    ensures (fd in ws[i + 1].peers <==> fd in ws[i + 1].idle) && (fd in ws[i + 1].peers <==> fd in ws[i + 1].active)
  {
    hide EventStep, WorldOk, Leaves, InTime;
    StartIsOk();
    HistoryOk(ws, events, lib, 0, i);
    TimelyAt(0, events, i);
    var c := ClockAt(0, events, i);
    TimelyNext(c, c, events, i);
    LeavesExactly(ws[i], ws[i + 1], events[i], lib, c, fd);
  }

  // ----- what a report moves -----

  /** All output, these replies' frames, has gone out up to what the kernel took of the rest. */
  ghost predicate WrittenOn(before: Bytes, replies: seq<Res>, kernel: Kernel, after: Bytes) {
    var left := Left(replies, before);
    && after <= Frames(replies)
    && |after| == |before| + if left > 0 && kernel(left).Took? then kernel(left).n else 0
  }

  lemma WroteOn(q: Peer, n: nat, kernel: Kernel)
    requires q.sent <= Frames(q.replies) && forall m :: kernel(m).Took? ==> kernel(m).n <= m
    ensures Wrote(q, kernel).received == q.received && Wrote(q, kernel).replies == q.replies
    ensures WrittenOn(q.sent, q.replies, kernel, Wrote(q, kernel).sent)
  {
    hide Frames;
    assert Frames(q.replies) == q.sent + Pending(q);
  }

  lemma ReadMoves(w: World, w': World, ev: Event, lib: A.Library, p': Peer, closing: bool, n: nat)
    requires ev.Polled? && ev.fd in w.peers && PeerOk(w.peers[ev.fd], n) && ev.input.Chunk? && Possible(ev)
    requires Reads(w.peers[ev.fd], p', closing, StockOf(w), StockOf(w'), ev.input, ev.clock, ev.kernel, lib)
    ensures var p := w.peers[ev.fd];
            && p'.received == p.received + ev.input.data && p.replies <= p'.replies
            && |p'.replies| == |Requested(p'.received).cmds| && WrittenOn(p.sent, p'.replies, ev.kernel, p'.sent)
  {
    hide Run, Handed, Requested, Wrote, WriteFails, WrittenOn, Frames, Fits;
    var p := w.peers[ev.fd];
    var q := p.(received := p.received + ev.input.data);
    CommandsGrow(p.received, ev.input.data);
    var rs :| Answered(q, StockOf(w), StockOf(w'), ev.clock, lib, rs) &&
              p' == Wrote(q.(replies := q.replies + rs), ev.kernel);
    FramesGrow(p.replies, rs);
    WroteOn(q.(replies := q.replies + rs), n, ev.kernel);
  }

  /**
   * A connection that stays: a chunk read is added to what has been received, every command in it is answered, and
   * the output begins to go out; output that was waiting goes out as far as the kernel takes it; a connection
   * that is not reported stays as it is.
   */
  lemma ReportMoves(w: World, w': World, ev: Event, lib: A.Library, t: nat, fd: nat)
    requires EventStep(w, w', ev, lib) && WorldOk(w, t) && Possible(ev)
    requires ev.Polled? && fd in w.peers && fd in w'.peers
    ensures var p, p', left := w.peers[fd], w'.peers[fd], Left(w.peers[fd].replies, w.peers[fd].sent);
            if ev.fd == fd && ev.pollIn && left == 0 && ev.input.Chunk? then
              && p'.received == p.received + ev.input.data && p.replies <= p'.replies
              && |p'.replies| == |Requested(p'.received).cmds| && WrittenOn(p.sent, p'.replies, ev.kernel, p'.sent)
            else if ev.fd == fd && ev.pollOut && left > 0 then
              p'.received == p.received && p'.replies == p.replies && WrittenOn(p.sent, p.replies, ev.kernel, p'.sent)
            else p' == p
  {
    hide Bounded, Reads, Left, WriteFails, Wrote, Pending, IdleOk, WrittenOn, Requested, Frames, Fits;
    var p := w.peers[fd];
    if ev.fd == fd && Reported(w, ev) {
      FailsMeans(p, ev.kernel);
      NotNegative(p, w.served);
      var p', closing :| PolledStep(w, w', ev, lib, p', closing);
      if Readable(p, ev) {
        if ev.input.Chunk? {
          ReadMoves(w, w', ev, lib, p', closing, w.served);
        } else {
          NoChunk(w, w', ev, lib, p', closing);
        }
      } else if Writable(p, ev) {
        WroteOn(p, w.served, ev.kernel);
      }
    } else if ev.fd == fd {
      FailsMeans(p, ev.kernel);
      NotNegative(p, w.served);
    }
  }

  lemma NoChunk(w: World, w': World, ev: Event, lib: A.Library, p': Peer, closing: bool)
    requires ev.Polled? && ev.fd in w.peers && !ev.input.Chunk?
    requires Reads(w.peers[ev.fd], p', closing, StockOf(w), StockOf(w'), ev.input, ev.clock, ev.kernel, lib)
    ensures p' == w.peers[ev.fd]
  {
  }

  /** Any report moves the connection to the end of the idle list, active now. */
  lemma ReportTouches(w: World, w': World, ev: Event, lib: A.Library, t: nat)
    requires EventStep(w, w', ev, lib) && WorldOk(w, t) && ev.Polled? && ev.fd in w.peers && ev.fd in w'.peers
    requires var left := Left(w.peers[ev.fd].replies, w.peers[ev.fd].sent);
             ev.pollErr || ev.pollOther || (ev.pollIn && left == 0) || (ev.pollOut && left > 0)
    ensures w'.active[ev.fd] == ev.now && w'.idle != [] && w'.idle[|w'.idle| - 1] == ev.fd
  {
    hide Bounded, Handled, Left, Pending, IdleOk, Frames, Fits, Requested;
    var p := w.peers[ev.fd];
    FailsMeans(p, ev.kernel);
    NotNegative(p, w.served);
    var p', closing :| PolledStep(w, w', ev, lib, p', closing);
  }

  /** A new connection has nothing behind it, is active now, and changes no other. */
  lemma AcceptAdds(w: World, w': World, fd: nat, now: nat, lib: A.Library)
    requires EventStep(w, w', Accept(fd, now), lib) && fd !in w.peers
    ensures w'.peers == w.peers[fd := Peer([], [], [])] && w'.idle == w.idle + [fd]
    ensures w'.active == w.active[fd := now] && w'.s == w.s && w'.owners == w.owners
  {
  }

  /**
   * What a poll report does to the store, whether or not the connection is closed afterwards: the commands of a chunk
   * that is read run in order, from the store and the owners before the event to those after it; nothing else
   * changes either.
   */
  lemma ReportRuns(w: World, w': World, ev: Event, lib: A.Library, t: nat)
    requires EventStep(w, w', ev, lib) && WorldOk(w, t) && ev.Polled?
    ensures if ev.fd in w.peers && ev.pollIn && ev.input.Chunk? &&
               Left(w.peers[ev.fd].replies, w.peers[ev.fd].sent) == 0
            then
              var p := w.peers[ev.fd];
              var cmds := Requested(p.received + ev.input.data).cmds;
              |p.replies| <= |cmds| && exists states, rs ::
                && Run(states, cmds[|p.replies|..], ev.clock, lib, rs) && Handed(states, w.owners, w'.owners)
                && states[0] == w.s && states[|states| - 1] == w'.s
            else w'.s == w.s && w'.owners == w.owners
  {
    hide Bounded, Left, Pending, Wrote, WriteFails, IdleOk, Frames, Fits, Requested, Run, Handed;
    if ev.fd in w.peers {
      var p := w.peers[ev.fd];
      FailsMeans(p, ev.kernel);
      NotNegative(p, w.served);
      if ev.input.Chunk? { CommandsGrow(p.received, ev.input.data); }
      if Reported(w, ev) {
        var p', closing :| PolledStep(w, w', ev, lib, p', closing);
        if Readable(p, ev) && ev.input.Chunk? {
          var q := p.(received := p.received + ev.input.data);
          var rs :| Answered(q, StockOf(w), StockOf(w'), ev.clock, lib, rs);
        }
      }
    }
  }

  /** A worker takes the first task, if there is one; nothing else changes. */
  lemma TakeMoves(w: World, w': World, lib: A.Library)
    requires EventStep(w, w', WorkerTakes, lib)
    ensures w'.owners.stored == w.owners.stored && w'.owners.freed == w.owners.freed
    ensures w.owners.queue == [] ==> w' == w
    ensures w.owners.queue != [] ==>
      w'.owners.queue == w.owners.queue[1..] && w'.owners.running == w.owners.running + {w.owners.queue[0]}
    ensures w'.s == w.s && w'.peers == w.peers && w'.idle == w.idle && w'.active == w.active
  {
  }

  /** A worker frees the entry in its hands, if any worker has one; nothing else changes. */
  lemma FinishMoves(w: World, w': World, lib: A.Library)
    requires EventStep(w, w', WorkerFinishes, lib)
    ensures w'.owners.stored == w.owners.stored && w'.owners.queue == w.owners.queue
    ensures w.owners.running == {} ==> w' == w
    ensures w.owners.running != {} ==> exists e <- w.owners.running ::
              w'.owners.running == w.owners.running - {e} && w'.owners.freed == w.owners.freed + [e]
    ensures w'.s == w.s && w'.peers == w.peers && w'.idle == w.idle && w'.active == w.active
  {
  }
}
