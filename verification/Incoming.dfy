/**
 * The memory of a connection's input buffer: for which sequences of reads it is enough.
 */
module Incoming {
  import opened Names
  import opened Bits
  import opened Requests
  import opened Buffers

  /** The layout after chunks have been read, the complete requests being removed after each. */
  ghost function LayoutAfter(chunks: seq<Bytes>): Layout {
    if chunks == [] then Layout(0, 0, 0)
    else
      var before, last := chunks[..|chunks| - 1], chunks[|chunks| - 1];
      var l := LayoutAfter(before);
      if Feed(before).bad then l else Trimmed(Appended(l, |last|), |Feed(chunks).rest|)
  }

  /** Each chunk fits when it is read. */
  ghost predicate Inside(chunks: seq<Bytes>) {
    forall i | 0 <= i < |chunks| :: Feed(chunks[..i]).bad || RoomFor(LayoutAfter(chunks[..i]), |chunks[i]|)
  }

  lemma TrimTwice(l: Layout, a: nat, b: nat)
    requires b <= a
    ensures Trimmed(Trimmed(l, a), b) == Trimmed(l, b)
  {
  }

  /** Remove all complete requests from the front, up to a bad one. */
  method RemoveRequests(buf: Buffer) returns (bad: bool)
    requires buf.Valid() && (buf.Size() == 0 ==> buf.dataBegin == 0)
    modifies buf
    ensures buf.Valid() && buf.mem == old(buf.mem)
    ensures var s := Requested(old(buf.Contents()));
            && buf.Contents() == s.rest && bad == s.bad
            && buf.AsLayout() == Trimmed(old(buf.AsLayout()), |s.rest|)
  {
    hide FirstRequest;
    ghost var all, l := buf.Contents(), buf.AsLayout();
    var step := FirstRequest(buf.mem[buf.dataBegin..buf.dataEnd]);
    while step.Request?
      invariant buf.Valid() && buf.mem == old(buf.mem) && step == FirstRequest(buf.Contents())
      invariant Requested(buf.Contents()).rest == Requested(all).rest
      invariant Requested(buf.Contents()).bad == Requested(all).bad
      invariant |buf.Contents()| <= |all| && buf.AsLayout() == Trimmed(l, |buf.Contents()|)
      decreases |buf.Contents()|
    {
      RequestSize(buf.Contents());
      TrimTwice(l, |buf.Contents()|, |buf.Contents()| - step.size);
      buf.Consume(step.size);
      step := FirstRequest(buf.mem[buf.dataBegin..buf.dataEnd]);
    }
    bad := step.Bad?;
  }

  lemma RequestSize(data: Bytes)
    ensures FirstRequest(data).Request? ==> 0 < FirstRequest(data).size <= |data|
  {
  }

  /** The data are the bytes left over. */
  lemma {:induction false} SizeAfter(chunks: seq<Bytes>)
    ensures var l := LayoutAfter(chunks);
            (!Feed(chunks).bad ==> l.size == |Feed(chunks).rest|) && (l.size == 0 ==> l.gap == 0)
  {
    if chunks != [] {
      var before, last := chunks[..|chunks| - 1], chunks[|chunks| - 1];
      SizeAfter(before);
      if !Feed(before).bad { RestIsShorter(Feed(before).rest + last); }
    }
  }

  lemma {:induction false} RestIsShorter(data: Bytes)
    ensures |Requested(data).rest| <= |data|
    decreases |data|
  {
    hide FirstRequest;
    RequestSize(data);
    var f := FirstRequest(data);
    if f.Request? { RestIsShorter(data[f.size..]); }
  }

  /** handle_read, as far as the input buffer is concerned. */
  method ReadOne(buf: Buffer, ghost before: seq<Bytes>, chunk: Bytes) returns (inside: bool, bad: bool)
    requires buf.Valid() && buf.Contents() == Feed(before).rest && !Feed(before).bad
    requires buf.AsLayout() == LayoutAfter(before)
    modifies buf, buf.mem
    ensures buf.mem == old(buf.mem) || fresh(buf.mem)
    ensures inside <==> RoomFor(LayoutAfter(before), |chunk|)
    ensures var now := before + [chunk];
            inside ==> && buf.Valid() && buf.Contents() == Feed(now).rest && bad == Feed(now).bad
                       && buf.AsLayout() == LayoutAfter(now)
  {
    hide RoomFor, Requested, MadeRoom, Trimmed;
    ghost var now := before + [chunk];
    assert now[..|now| - 1] == before;
    bad := false;
    SizeAfter(before);
    AppendedSize(buf.AsLayout(), |chunk|);
    inside := buf.Append(chunk);
    if inside {
      bad := RemoveRequests(buf);
    }
  }

  lemma AppendedSize(l: Layout, len: nat)
    ensures Appended(l, len).size == l.size + len && (len == 0 ==> Appended(l, len) == l)
  {
  }

  /**
   * A new input buffer that reads chunks, gives up the complete requests after each, and stops at a bad
   * one: all its appends stay inside its memory if and only if each chunk fits.
   */
  method ReadAll(chunks: seq<Bytes>) returns (buf: Buffer, inside: bool)
    ensures inside <==> Inside(chunks)
    ensures inside ==> buf.Valid() && buf.Contents() == Feed(chunks).rest && buf.AsLayout() == LayoutAfter(chunks)
  {
    hide RoomFor, Feed, LayoutAfter;
    NothingRead();
    buf := new Buffer();
    inside := true;
    var bad := false;
    for i := 0 to |chunks|
      invariant buf.Valid() && fresh(buf) && fresh(buf.mem) && inside && bad == Feed(chunks[..i]).bad
      invariant buf.Contents() == Feed(chunks[..i]).rest && buf.AsLayout() == LayoutAfter(chunks[..i])
      invariant forall j | 0 <= j < i :: Feed(chunks[..j]).bad || RoomFor(LayoutAfter(chunks[..j]), |chunks[j]|)
    {
      assert chunks[..i + 1] == chunks[..i] + [chunks[i]];
      if bad {
        NoMore(chunks[..i], chunks[i]);
      } else {
        inside, bad := ReadOne(buf, chunks[..i], chunks[i]);
        if !inside {
          return;
        }
      }
    }
    assert chunks[..|chunks|] == chunks;
  }

  lemma NothingRead()
    ensures Feed([]) == Stream([], [], false) && LayoutAfter([]) == Layout(0, 0, 0)
  {
  }

  lemma NoMore(before: seq<Bytes>, chunk: Bytes)
    requires Feed(before).bad
    ensures Feed(before + [chunk]) == Feed(before) && LayoutAfter(before + [chunk]) == LayoutAfter(before)
  {
    var now := before + [chunk];
    assert now[..|now| - 1] == before;
  }

  // ----- clients that wait -----

  /** A chunk that completes a request ends with it, as when a client waits for each reply. */
  ghost predicate Waits(chunks: seq<Bytes>) {
    forall i | 0 <= i < |chunks| :: WaitsAt(chunks[..i], chunks[i])
  }

  ghost predicate WaitsAt(before: seq<Bytes>, chunk: Bytes) {
    var s, t := Feed(before), Feed(before + [chunk]);
    s.bad || t.bad || t.rest == [] || t.rest == s.rest + chunk
  }

  lemma {:induction false} NoGap(chunks: seq<Bytes>, i: nat)
    requires Waits(chunks) && i <= |chunks| && !Feed(chunks[..i]).bad
    ensures var l := LayoutAfter(chunks[..i]); l.gap == 0 && l.size <= l.cap
  {
    hide Requested, Feed;
    if i > 0 {
      var now, before, chunk := chunks[..i], chunks[..i - 1], chunks[i - 1];
      assert now[..|now| - 1] == before && now == before + [chunk];
      if Feed(before).bad { NoMore(before, chunk); }
      NoGap(chunks, i - 1);
      SizeAfter(before);
      FrontFits(LayoutAfter(before), |chunk|);
      RoomIsInside(LayoutAfter(before), |chunk|);
      assert WaitsAt(before, chunk);
    }
  }

  /** With a client that waits, however its requests are cut into chunks, the memory is always enough. */
  lemma WaitingClientsFit(chunks: seq<Bytes>)
    requires Waits(chunks)
    ensures Inside(chunks)
  {
    hide Waits, Feed, LayoutAfter, RoomFor;
    forall i | 0 <= i < |chunks| ensures Feed(chunks[..i]).bad || RoomFor(LayoutAfter(chunks[..i]), |chunks[i]|) {
      if !Feed(chunks[..i]).bad {
        NoGap(chunks, i);
        FrontFits(LayoutAfter(chunks[..i]), |chunks[i]|);
      }
    }
  }

  // ----- a client that does not -----

  /** A request of 60 bytes, and the header of another of 124. */
  function GapInput(): Bytes { U32(56) + Payload([seq(48, _ => 97)]) + U32(120) }

  lemma GapInputHolds()
    ensures |GapInput()| == 64 && FirstRequest(GapInput()) == Request([seq(48, _ => 97)], 60)
    ensures FirstRequest(GapInput()[60..]).More?
  {
    hide U32, Number, Parse, Strings;
    var cmd: Command, input := [seq(48, _ => 97)], GapInput();
    GapPayload();
    ParseOfPayload(cmd);
    U32RoundTrip(56, []);
    U32RoundTrip(120, []);
    assert input[..4] == U32(56) && input[4..60] == Payload(cmd) && input[60..][..4] == U32(120);
  }

  lemma GapPayload()
    ensures |Payload([seq(48, _ => 97)])| == 56
  {
    var cmd: Command := [seq(48, _ => 97)];
    assert cmd[1..] == [] && |Strings(cmd)| == 4 + 48;
  }

  /** A read of these 64 bytes, and then one of 124. */
  function GapChunks(): seq<Bytes> { [GapInput(), seq(124, _ => 0)] }

  /** Two reads for which the memory is not enough. */
  lemma InputGap()
    ensures LayoutAfter(GapChunks()[..1]) == Layout(64, 60, 4) && !Inside(GapChunks())
  {
    hide Feed, LayoutAfter, GapInput, RoomFor;
    var chunks := GapChunks();
    assert chunks[..1] == [GapInput()] && |chunks[1]| == 124;
    FirstRead();
    GapMatters();
  }

  lemma FirstRead()
    ensures LayoutAfter([GapInput()]) == Layout(64, 60, 4) && !Feed([GapInput()]).bad
  {
    hide U32, Payload, FirstRequest, GapInput;
    assert [GapInput()][..0] == [] && [] + GapInput() == GapInput();
    GapInputHolds();
    assert Requested(GapInput()).rest == GapInput()[60..];
    assert Grown(0, 64) == 64;
  }
}
