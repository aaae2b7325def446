/**
 * A connection: requests are decoded from what has been read and answered in order; the
 * connection alternates between reading requests and writing responses.
 */
module Conns {
  import opened Names
  import opened Entries
  import opened Ledgers
  import opened Stores
  import opened Bits
  import opened Requests
  import opened Responses
  import opened Buffers
  import opened Output
  import opened Exec
  import opened Dispatch
  import opened IdleList
  import opened Worlds
  import A = Abstract

  method Begin(st: Store, out: Buffer) returns (headerPos: nat)
    requires Ready(st, out)
    modifies out, out.mem
    ensures Ready(st, out) && (out.mem == old(out.mem) || fresh(out.mem))
    ensures st.State() == old(st.State()) && st.Owners() == old(st.Owners())
    ensures st.core == old(st.core) && st.zparts == old(st.zparts)
    ensures out.Contents() == old(out.Contents()) + U32(0) && headerPos == |old(out.Contents())|
  {
    hide Store.Ok, Store.Deadlines, Buffer.Contents, U32;
    headerPos := ResponseBegin(out);
  }

  method End(st: Store, out: Buffer, headerPos: nat, ghost was: Bytes, ghost r: Res)
    requires Ready(st, out) && out.Contents() == was + U32(0) + Encode(r) && headerPos == |was|
    modifies out, out.mem
    ensures Ready(st, out) && (out.mem == old(out.mem) || fresh(out.mem))
    ensures st.State() == old(st.State()) && st.Owners() == old(st.Owners())
    ensures st.core == old(st.core) && st.zparts == old(st.zparts)
    ensures out.Contents() == was + Frame(Encode(Reply(r)))
  {
    hide Store.Ok, Store.Deadlines, Buffer.Contents, U32, Encode;
    ResponseEnd(out, headerPos, was, r);
  }

  /** Execute one request and append exactly one frame. */
  method Answer(st: Store, lib: A.Library, cmd: Command, now: nat, out: Buffer) returns (ok: bool, ghost r: Res)
    requires Ready(st, out)
    modifies st.core, st.zparts, out, out.mem
    ensures Ready(st, out) && (out.mem == old(out.mem) || fresh(out.mem))
    ensures fresh(st.core - old(st.core)) && fresh(st.zparts - old(st.zparts))
    ensures Follows(old(st.State()), old(st.Owners()), st.State(), st.Owners())
    ensures ok == !A.Aborts(cmd, lib)
    ensures !ok ==> st.Owners() == old(st.Owners())
    ensures ok ==> A.Answers(old(st.State()), cmd, now, lib, st.State(), r)
    ensures ok ==> out.Contents() == old(out.Contents()) + Frame(Encode(Reply(r)))
  {
    hide Ready, Store.Deadlines, Store.Owners, Follows, Store.Ok, Buffer.Contents, Buffer.Front, Buffer.Valid, U32,
         Encode,
         Frame, Reply, A.Answers, A.Aborts;
    ghost var was := out.Contents();
    var headerPos := Begin(st, out);
    ok, r := ExecCmd(st, lib, cmd, now, out);
    if ok {
      End(st, out, headerPos, was, r);
    }
  }

  /** Every entry is accounted for when a command begins. */
  lemma AccountedFor(st: Store, out: Buffer)
    requires Ready(st, out)
    ensures Accounted(st.Owners(), st.State().values.Keys)
  {
    hide Store.Ok, Accounted;
    st.Partition();
  }

  class Conn {
    var wantRead: bool
    var wantWrite: bool
    var wantClose: bool
    var incoming: Bytes
    const outgoing: Buffer
    const idleNode: IdleNode       // its place among the idle timers
    ghost var received: Bytes      // everything read so far
    ghost var cmds: seq<Command>   // the commands executed so far
    ghost var replies: seq<Res>    // their responses
    ghost var sent: Bytes          // everything written so far

    /** handle_accept */
    constructor (fd: nat, now: nat)
      ensures Open() && AsPeer() == Peer([], [], []) && fresh(outgoing) && fresh(outgoing.mem)
      ensures fresh(idleNode) && idleNode.fd == fd && idleNode.lastActive == now
    {
      wantRead, wantWrite, wantClose := true, false, false;
      incoming := [];
      outgoing := new Buffer();
      idleNode := new IdleNode(fd, now);
      received, cmds, replies, sent := [], [], [], [];
    }

    /** The connection as a value. */
    ghost function AsPeer(): Peer
      reads this`received, this`replies, this`sent
    {
      Peer(received, replies, sent)
    }

    /** What has been read is decoded up to incoming; the decoding of the rest is still to come. */
    ghost predicate Decoded()
      reads this`received, this`incoming, this`cmds
    {
      Requested(received) == Requested(incoming).(cmds := cmds + Requested(incoming).cmds)
    }

    /** What has been written and what is waiting to be are the frames of all replies so far. */
    ghost predicate Framed()
      reads this`sent, this`replies, this`cmds, outgoing, outgoing.mem
    {
      && outgoing.Valid() && sent + outgoing.Contents() == Frames(replies) && |replies| == |cmds|
    }

    /**
     * An open connection between events: it wants exactly one of reading and writing, writing when
     * there is output, and no complete request is waiting.
     */
    ghost predicate Open()
      reads this, outgoing, outgoing.mem
    {
      && Framed() && Decoded() && FirstRequest(incoming).More?
      && wantRead == !wantWrite && wantWrite == (outgoing.Contents() != []) && !wantClose
      && (wantRead ==> outgoing.Front())
    }

    /** The connection is no part of the store. */
    ghost predicate Outside(st: Store)
      reads st
    {
      this !in st.core + st.zparts
    }

    /** What the next bytes of incoming are. */
    method NextRequest() returns (r: Step)
      ensures r == FirstRequest(incoming)
    {
      hide Number, Parse;
      if |incoming| < 4 {
        return More;
      }
      var len := Number(incoming[..4]);
      if len > K_MAX_MSG {
        return Bad;
      }
      if 4 + len > |incoming| {
        return More;
      }
      var cmd := ParseReq(incoming[4..4 + len]);
      if cmd == None {
        return Bad;
      }
      return Request(cmd.value, 4 + len);
    }

    /** One request less to decode. */
    lemma DecodeOne(cmd: Command, size: nat)
      requires Decoded() && FirstRequest(incoming) == Request(cmd, size)
      ensures var rest := incoming[size..];
              Requested(received) == Requested(rest).(cmds := cmds + [cmd] + Requested(rest).cmds)
    {
    }

    /** buf_consume of the request, and the ghost record of its answer. */
    method Advance(cmd: Command, size: nat, ghost r: Res, ghost was: Bytes)
      requires Decoded() && FirstRequest(incoming) == Request(cmd, size)
      requires outgoing.Valid() && sent + was == Frames(replies) && |replies| == |cmds|
      requires outgoing.Contents() == was + Frame(Encode(Reply(r)))
      modifies this`incoming, this`cmds, this`replies
      ensures Decoded() && Framed()
      ensures incoming == old(incoming)[size..] && cmds == old(cmds) + [cmd] && replies == old(replies) + [r]
    {
      hide FirstRequest, Requested, Encode, Frame, Reply, Buffer.Valid, Buffer.Contents;
      DecodeOne(cmd, size);
      FramesAppend(replies, r);
      Pieces(sent, was, Frame(Encode(Reply(r))), [], []);
      incoming, cmds, replies := incoming[size..], cmds + [cmd], replies + [r];
    }

    /** Answer the complete request at the front of incoming. */
    method AnswerRequest(st: Store, lib: A.Library, now: nat, cmd: Command, size: nat) returns (ok: bool, ghost r: Res)
      requires Ready(st, outgoing) && Outside(st) && Decoded() && Framed() &&
               FirstRequest(incoming) == Request(cmd, size)
      modifies this`incoming, this`cmds, this`replies, st.core, st.zparts, outgoing, outgoing.mem
      ensures Ready(st, outgoing) && Outside(st) && (outgoing.mem == old(outgoing.mem) || fresh(outgoing.mem))
      ensures fresh(st.core - old(st.core)) && fresh(st.zparts - old(st.zparts))
      ensures Follows(old(st.State()), old(st.Owners()), st.State(), st.Owners())
      ensures ok == !A.Aborts(cmd, lib)
      ensures !ok ==> st.Owners() == old(st.Owners())
      ensures ok ==> Decoded() && Framed() && A.Answers(old(st.State()), cmd, now, lib, st.State(), r)
      ensures ok ==> incoming == old(incoming)[size..] && cmds == old(cmds) + [cmd] && replies == old(replies) + [r]
    {
      hide Ready, FirstRequest, Requested, Store.Deadlines, Store.Owners, Follows, Store.Ok, Encode, Frame, Reply,
           A.Answers, A.Aborts, Buffer.Contents, Buffer.Front, Buffer.Valid;
      ghost var was := outgoing.Contents();
      ok, r := Answer(st, lib, cmd, now, outgoing);
      if ok {
        Advance(cmd, size, r, was);
      }
    }

    /** The connection and its buffer are no part of the store. */
    ghost predicate Clear(st: Store)
      reads this, outgoing, st
    {
      {this, outgoing, outgoing.mem} !! st.core + st.zparts
    }

    /** None of the commands read, from number n on, is stopped by an assertion. */
    ghost predicate Harmless(n: nat, lib: A.Library)
      reads this`received
    {
      forall i | n <= i < |Requested(received).cmds| :: !A.Aborts(Requested(received).cmds[i], lib)
    }

    /** The complete request at the front of incoming is the next that the bytes read so far decode to. */
    lemma NextIsRequested(n: nat, lib: A.Library)
      requires Decoded() && FirstRequest(incoming).Request? && n <= |cmds| && Harmless(n, lib)
      ensures !A.Aborts(FirstRequest(incoming).cmd, lib)
    {
      hide A.Aborts;
      assert Requested(received).cmds[|cmds|] == FirstRequest(incoming).cmd;
    }

    /**
     * try_one_request: answer one complete request; a bad one closes the connection.  ok is false
     * when an assertion stops the process.
     */
    method TryOneRequest(st: Store, lib: A.Library, now: nat) returns (more: bool, ok: bool, ghost r: Res)
      requires Ready(st, outgoing) && Outside(st) && Decoded() && Framed() && !wantClose
      modifies this`incoming, this`wantClose, this`cmds, this`replies, st.core, st.zparts, outgoing, outgoing.mem
      ensures Ready(st, outgoing) && Outside(st) && (outgoing.mem == old(outgoing.mem) || fresh(outgoing.mem))
      ensures fresh(st.core - old(st.core)) && fresh(st.zparts - old(st.zparts))
      ensures Follows(old(st.State()), old(st.Owners()), st.State(), st.Owners())
      ensures more ==> ok
      ensures !more ==> st.Owners() == old(st.Owners())
      ensures ok ==> Decoded() && Framed()
      ensures wantClose == old(FirstRequest(incoming)).Bad?
      ensures !old(FirstRequest(incoming)).Request? ==>
        && ok && !more && incoming == old(incoming) && cmds == old(cmds) && replies == old(replies)
        && st.State() == old(st.State())
      ensures old(FirstRequest(incoming)).Request? ==>
        var cmd, size := old(FirstRequest(incoming)).cmd, old(FirstRequest(incoming)).size;
        && more == ok == !A.Aborts(cmd, lib)
        && (ok ==> incoming == old(incoming)[size..] && cmds == old(cmds) + [cmd] && replies == old(replies) + [r]
                   && A.Answers(old(st.State()), cmd, now, lib, st.State(), r))
    {
      hide Ready, FirstRequest, Requested, Store.Deadlines, Store.Owners, Follows, Store.Ok, Encode, Frame, Reply,
           A.Answers, A.Aborts, Buffer.Contents, Buffer.Front, Buffer.Valid;
      KeysStay(st.State(), st.Owners(), st.State());
      more, ok, r := false, true, Nil;
      var step := NextRequest();
      if step.Bad? {
        wantClose := true;
      } else if step.Request? {
        ok, r := AnswerRequest(st, lib, now, step.cmd, step.size);
        more := ok;
      }
    }

    /** while (try_one_request): the commands run in order on the store. */
    method ServeAll(st: Store, lib: A.Library, clock: nat -> nat)
      returns (ok: bool, ghost states: seq<A.Abs>, ghost ran: seq<Command>, ghost rs: seq<Res>)
      requires Ready(st, outgoing) && Outside(st) && Decoded() && Framed() && !wantClose
      modifies this`incoming, this`wantClose, this`cmds, this`replies, st.core, st.zparts, outgoing, outgoing.mem
      ensures Ready(st, outgoing) && Outside(st) && (outgoing.mem == old(outgoing.mem) || fresh(outgoing.mem))
      ensures fresh(st.core - old(st.core)) && fresh(st.zparts - old(st.zparts))
      ensures Handed(states, old(st.Owners()), st.Owners())
      ensures Run(states, ran, clock, lib, rs) && states[0] == old(st.State())
      ensures ok ==> states[|ran|] == st.State() && Decoded() && Framed()
      ensures ok ==> cmds == old(cmds) + ran && replies == old(replies) + rs
      ensures Harmless(|old(cmds)|, lib) ==> ok
      ensures ok ==> if wantClose then FirstRequest(incoming).Bad? else FirstRequest(incoming).More?
    {
      hide Ready, FirstRequest, Requested, Store.Deadlines, Store.Owners, Follows, Handed, Accounted, Store.Ok,
           Encode, Frame, Reply, A.Answers, A.Aborts, Buffer.Contents, Buffer.Front, Buffer.Valid, Framed, Decoded,
           Run, Harmless;
      states, ran, rs, ok := [st.State()], [], [], true;
      NoRun(st.State(), clock, lib);
      NothingHanded(st.State(), st.Owners());
      Nothing(cmds, replies);
      var more, n := true, 0;
      while more
        invariant Ready(st, outgoing) && Outside(st) && (outgoing.mem == old(outgoing.mem) || fresh(outgoing.mem))
        invariant fresh(st.core - old(st.core)) && fresh(st.zparts - old(st.zparts))
        invariant Handed(states, old(st.Owners()), st.Owners())
        invariant Decoded() && Framed() && Run(states, ran, clock, lib, rs) && states[0] == old(st.State())
        invariant n == |ran| && states[n] == st.State() && cmds == old(cmds) + ran && replies == old(replies) + rs
        invariant if wantClose then !more && FirstRequest(incoming).Bad? else !more ==> FirstRequest(incoming).More?
        decreases |incoming|, more
      {
        ghost var owners := st.Owners();
        AccountedFor(st, outgoing);
        ghost var step := FirstRequest(incoming);
        ghost var r;
        if step.Request? && Harmless(|old(cmds)|, lib) { NextIsRequested(|old(cmds)|, lib); }
        more, ok, r := TryOneRequest(st, lib, clock(n));
        if !ok {
          return;
        }
        if more {
          HandedMore(states, st.State(), old(st.Owners()), owners, st.Owners());
          RunAppend(states, ran, clock, lib, rs, step.cmd, st.State(), r);
          Regroup1(old(cmds), ran, step.cmd);
          Regroup1(old(replies), rs, r);
          states, ran, rs := states + [st.State()], ran + [step.cmd], rs + [r];
          n := n + 1;
        }
      }
    }

    lemma NoRun(s: A.Abs, clock: nat -> nat, lib: A.Library)
      ensures Run([s], [], clock, lib, [])
    {
    }

    lemma Nothing<T, U>(a: seq<T>, b: seq<U>)
      ensures a == a + [] && b == b + []
    {
    }

    lemma Regroup1<T>(a: seq<T>, b: seq<T>, x: T)
      ensures a + b + [x] == a + (b + [x])
    {
    }

    /** handle_write: a prefix of the output goes out; when all has gone, read again. */
    method HandleWrite(w: Written)
      requires Framed() && outgoing.Contents() != [] && wantWrite && !wantRead
      requires w.Took? ==> w.n <= |outgoing.Contents()|
      modifies this`wantRead, this`wantWrite, this`wantClose, this`sent, outgoing
      ensures Framed() && outgoing.mem == old(outgoing.mem)
      ensures wantClose == (old(wantClose) || w.WriteFailed?)
      ensures wantWrite == (outgoing.Contents() != []) && wantRead == !wantWrite && (wantRead ==> outgoing.Front())
      ensures w.Took? ==> outgoing.Contents() == old(outgoing.Contents())[w.n..]
      ensures sent == old(sent) + (if w.Took? then old(outgoing.Contents())[..w.n] else [])
    {
      hide Frames;
      if w.NotNow? {
        return;
      }
      if w.WriteFailed? {
        wantClose := true;
        return;
      }
      ghost var data := outgoing.Contents();
      assert sent + data == sent + data[..w.n] + data[w.n..];
      outgoing.Consume(w.n);
      sent := sent + data[..w.n];
      if outgoing.Size() == 0 {
        wantRead, wantWrite := true, false;
      }
    }

    /** A chunk that arrives when no complete request is waiting. */
    lemma DecodeMore(data: Bytes)
      requires Decoded() && FirstRequest(incoming).More?
      ensures Requested(received + data) == Requested(incoming + data).(cmds := cmds + Requested(incoming + data).cmds)
    {
      assert cmds + [] == cmds;
      assert Requested(incoming) == Stream([], incoming, false);
      RequestedContinue(received, data);
    }

    /** What has been executed is what the bytes read so far decode to. */
    lemma AllDecoded()
      requires Decoded() && !FirstRequest(incoming).Request?
      ensures cmds == Requested(received).cmds && Requested(received).bad == FirstRequest(incoming).Bad?
      ensures Requested(received).rest == incoming
    {
    }

    /** The new data goes to the end of incoming. */
    method Receive(data: Bytes)
      requires Decoded() && FirstRequest(incoming).More?
      modifies this`incoming, this`received
      ensures Decoded() && received == old(received) + data
    {
      hide FirstRequest, Requested;
      DecodeMore(data);
      received := received + data;
      incoming := incoming + data;
    }

    /** What is waiting to be written is the content of the output buffer. */
    lemma PendingIsOutgoing()
      requires Framed()
      ensures Pending(AsPeer()) == outgoing.Contents()
    {
      hide Frames;
    }

    /** The response goes out, and at once as far as the kernel takes it. */
    method StartWriting(kernel: Kernel)
      requires Framed() && wantRead && !wantWrite && outgoing.Front()
      requires forall n :: kernel(n).Took? ==> kernel(n).n <= n
      modifies this`wantRead, this`wantWrite, this`wantClose, this`sent, outgoing
      ensures Framed() && wantRead == !wantWrite && wantWrite == (outgoing.Contents() != [])
      ensures (wantRead ==> outgoing.Front()) && outgoing.mem == old(outgoing.mem)
      ensures AsPeer() == Wrote(old(AsPeer()), kernel)
      ensures wantClose == (old(wantClose) || WriteFails(old(AsPeer()), kernel))
    {
      hide Frames, Pending;
      PendingIsOutgoing();
      if outgoing.Size() > 0 {
        wantRead, wantWrite := false, true;
        HandleWrite(kernel(outgoing.Size()));
      }
    }

    /** The commands that ran are the ones that were unanswered. */
    lemma RanUnanswered(before: seq<Command>, ran: seq<Command>, rs: seq<Res>, sentBefore: Bytes)
      requires cmds == before + ran && cmds == Requested(received).cmds && |rs| == |before|
      ensures Unanswered(Peer(received, rs, sentBefore)) == ran
    {
    }

    /** How many commands have been read bounds how many have been executed. */
    lemma DecodedPrefix()
      requires Decoded()
      ensures |cmds| <= |Requested(received).cmds|
    {
    }

    /** A chunk of input: decode and answer what is complete, and begin to write. */
    method HandleChunk(st: Store, lib: A.Library, clock: nat -> nat, data: Bytes, kernel: Kernel) returns (ok: bool)
      requires Ready(st, outgoing) && Outside(st) && Open() && wantRead && Pending(AsPeer()) == []
      requires forall n :: kernel(n).Took? ==> kernel(n).n <= n
      modifies this, st.core, st.zparts, outgoing, outgoing.mem
      ensures fresh(st.core - old(st.core)) && fresh(st.zparts - old(st.zparts))
      ensures outgoing.mem == old(outgoing.mem) || fresh(outgoing.mem)
      ensures ok == Survives(old(AsPeer()), Chunk(data), lib)
      ensures ok ==>
        Reads(old(AsPeer()), AsPeer(), wantClose, Stock(old(st.State()), old(st.Owners())),
              Stock(st.State(), st.Owners()), Chunk(data), clock, kernel, lib)
      ensures ok ==> st.Ok() && Clear(st) && (wantClose || Open())
    {
      hide Ready, FirstRequest, Requested, Store.Deadlines, Store.Owners, Handed, Store.Ok, Frames, Decoded,
           Buffer.Contents, Buffer.Valid, Run, Reads, Survives, Unanswered, Wrote, WriteFails, Pending, Harmless;
      ghost var before, p, owners := cmds, AsPeer(), st.Owners();
      ghost var states, ran, rs;
      Receive(data);
      DecodedPrefix();
      NewlyArrived(before, p.replies, p.sent, lib);
      ok, states, ran, rs := ServeAll(st, lib, clock);
      if ok {
        AllDecoded();
        RanUnanswered(before, ran, p.replies, p.sent);
        RunSurvives(states, ran, clock, lib, rs);
        StartWriting(kernel);
        ReadsChunk(p, AsPeer(), wantClose, data, states, ran, owners, st.Owners(), clock, kernel, lib, rs);
      }
      SurvivesMeans(p, data, lib);
    }

    /** The commands after those before the chunk are the unanswered ones. */
    lemma NewlyArrived(before: seq<Command>, rs: seq<Res>, sentBefore: Bytes, lib: A.Library)
      requires |before| == |rs| && |before| <= |Requested(received).cmds|
      ensures (forall c <- Unanswered(Peer(received, rs, sentBefore)) :: !A.Aborts(c, lib)) ==> Harmless(|before|, lib)
    {
      hide A.Aborts;
      var all := Requested(received).cmds;
      assert forall i | |before| <= i < |all| :: all[i] == all[|before|..][i - |before|];
    }

    /**
     * handle_read: the connection and the store become what reading makes of them; ok is false exactly
     * when one of the new commands is stopped by an assertion.
     */
    method HandleRead(st: Store, lib: A.Library, clock: nat -> nat, input: Input, kernel: Kernel) returns (ok: bool)
      requires st.Ok() && Clear(st) && Open() && wantRead && (input.Chunk? ==> 0 < |input.data| <= READ_SIZE)
      requires forall n :: kernel(n).Took? ==> kernel(n).n <= n
      modifies this, st.core, st.zparts, outgoing, outgoing.mem
      ensures fresh(st.core - old(st.core)) && fresh(st.zparts - old(st.zparts))
      ensures outgoing.mem == old(outgoing.mem) || fresh(outgoing.mem)
      ensures ok == Survives(old(AsPeer()), input, lib)
      ensures ok ==>
        Reads(old(AsPeer()), AsPeer(), wantClose, Stock(old(st.State()), old(st.Owners())),
              Stock(st.State(), st.Owners()), input, clock, kernel, lib)
      ensures ok ==> st.Ok() && Clear(st) && (wantClose || Open())
    {
      hide Ready, FirstRequest, Requested, Store.Deadlines, Store.Owners, Handed, Store.Ok, Frames, Decoded,
           Buffer.Contents, Buffer.Valid;
      ok := true;
      PendingIsOutgoing();
      StillReady(st, outgoing);
      match input {
        case NothingYet =>
        case ReadFailed => wantClose := true;
        case EndOfFile => wantClose := true;
        case Chunk(data) => ok := HandleChunk(st, lib, clock, data, kernel);
      }
    }

    /** What an open connection wants, by what it has pending. */
    lemma WantsByPending()
      requires Open()
      ensures wantRead <==> Pending(AsPeer()) == []
      ensures wantWrite <==> Pending(AsPeer()) != []
    {
      PendingIsOutgoing();
    }

    /** A write of the pending output. */
    method HandleWritable(kernel: Kernel)
      requires Open() && wantWrite && forall n :: kernel(n).Took? ==> kernel(n).n <= n
      modifies this`wantRead, this`wantWrite, this`wantClose, this`sent, outgoing
      ensures AsPeer() == Wrote(old(AsPeer()), kernel) && wantClose == WriteFails(old(AsPeer()), kernel)
      ensures wantClose || Open()
      ensures outgoing.mem == old(outgoing.mem)
    {
      hide Frames, Pending, Decoded, FirstRequest;
      PendingIsOutgoing();
      HandleWrite(kernel(outgoing.Size()));
    }

    /**
     * What the event loop does with a connection that poll reports, which is only what the connection
     * asked for: so the assertions hold, and at most one of the two handlers runs.
     */
    method HandlePolled(st: Store, lib: A.Library, ev: Event) returns (ok: bool)
      requires st.Ok() && Clear(st) && Open() && ev.Polled? && Possible(ev)
      modifies this, st.core, st.zparts, outgoing, outgoing.mem
      ensures fresh(st.core - old(st.core)) && fresh(st.zparts - old(st.zparts))
      ensures outgoing.mem == old(outgoing.mem) || fresh(outgoing.mem)
      ensures ok == (Readable(old(AsPeer()), ev) ==> Survives(old(AsPeer()), ev.input, lib))
      ensures ok ==>
        Handled(old(AsPeer()), AsPeer(), wantClose, Stock(old(st.State()), old(st.Owners())),
                Stock(st.State(), st.Owners()), ev, lib)
      ensures ok ==> st.Ok() && Clear(st) && (wantClose || Open())
    {
      hide Store.Deadlines, Store.Owners, Handed, Store.Ok, Pending, Reads, Survives, Wrote, WriteFails;
      WantsByPending();
      ok := true;
      var readable, writable := ev.pollIn && wantRead, ev.pollOut && wantWrite;
      if readable {
        assert wantRead;
        ok := HandleRead(st, lib, ev.clock, ev.input, ev.kernel);
      }
      if writable {
        assert wantWrite;
        HandleWritable(ev.kernel);
      }
    }
  }
}
