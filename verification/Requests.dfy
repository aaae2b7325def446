/**
 * Request messages: a header with the payload size, the number of strings, and each string with
 * its length in front.
 */
module Requests {
  import opened Names
  import opened Bits

  const K_MAX_MSG := 0x200_0000  // 32 MB
  const K_MAX_ARGS := 200 * 1000

  datatype Option<T> = None | Some(value: T)

  type Command = seq<Bytes>

  function Strings(cmd: Command): Bytes {
    if cmd == [] then [] else U32(|cmd[0]|) + cmd[0] + Strings(cmd[1..])
  }

  function Payload(cmd: Command): Bytes { U32(|cmd|) + Strings(cmd) }

  /** n strings and nothing after them. */
  function ParseStrings(n: nat, data: Bytes): Option<Command> {
    if n == 0 then (if data == [] then Some([]) else None)
    else if |data| < 4 then None
    else
      var len := Number(data[..4]);
      if 4 + len > |data| then None
      else
        match ParseStrings(n - 1, data[4 + len..])
        case None => None
        case Some(rest) => Some([data[4..4 + len]] + rest)
  }

  /** The command that a payload encodes, if it encodes one. */
  function Parse(data: Bytes): Option<Command> {
    if |data| < 4 || Number(data[..4]) > K_MAX_ARGS then None else ParseStrings(Number(data[..4]), data[4..])
  }

  // ----- sending -----

  lemma {:induction false} StringsAppend(cmd: Command, s: Bytes)
    ensures Strings(cmd + [s]) == Strings(cmd) + (U32(|s|) + s)
  {
    if cmd == [] {
      assert (cmd + [s])[1..] == [];
    } else {
      assert (cmd + [s])[1..] == cmd[1..] + [s];
      StringsAppend(cmd[1..], s);
    }
  }

  /** The first strings of a request have a size that, in 32 bits, is within the limit. */
  predicate PrefixFits(cmd: Command, i: nat)
    requires i <= |cmd|
  {
    |Payload(cmd[..i])| % TWO_32 <= K_MAX_MSG
  }

  /** What the client's size loop checks: every prefix fits. */
  predicate Accepted(cmd: Command) { forall i | 0 <= i <= |cmd| :: PrefixFits(cmd, i) }

  /** The first pass: the payload size in 32 bits, or nothing as soon as it exceeds K_MAX_MSG. */
  method PayloadSize(cmd: Command) returns (r: Option<nat>)
    ensures r == if Accepted(cmd) then Some(|Payload(cmd)| % TWO_32) else None
  {
    hide U32, Little, Payload, PrefixFits;
    var len: nat := 4;
    NoStrings(cmd);
    for i := 0 to |cmd|
      invariant len == |Payload(cmd[..i])| % TWO_32 <= K_MAX_MSG
      invariant forall j | 0 <= j <= i :: PrefixFits(cmd, j)
    {
      OneMoreString(cmd, i);
      len := (len + 4 + |cmd[i]|) % TWO_32;
      FitsMeans(cmd, i + 1);
      if len > K_MAX_MSG {
        return None;
      }
    }
    assert cmd[..|cmd|] == cmd;
    r := Some(len);
  }

  lemma NoStrings(cmd: Command)
    ensures |Payload(cmd[..0])| == 4 && PrefixFits(cmd, 0)
  {
  }

  lemma FitsMeans(cmd: Command, i: nat)
    requires i <= |cmd|
    ensures PrefixFits(cmd, i) <==> |Payload(cmd[..i])| % TWO_32 <= K_MAX_MSG
  {
  }

  lemma OneMoreString(cmd: Command, i: nat)
    requires i < |cmd|
    ensures |Payload(cmd[..i + 1])| == |Payload(cmd[..i])| + 4 + |cmd[i]|
    ensures |Payload(cmd[..i + 1])| % TWO_32 == (|Payload(cmd[..i])| % TWO_32 + 4 + |cmd[i]|) % TWO_32
  {
    hide U32, Little;
    assert cmd[..i + 1] == cmd[..i] + [cmd[i]];
    StringsAppend(cmd[..i], cmd[i]);
    WrapTwice(|Payload(cmd[..i])|, 4 + |cmd[i]|);
  }

  lemma WrapTwice(a: nat, b: nat)
    ensures (a + b) % TWO_32 == (a % TWO_32 + b) % TWO_32
  {
  }

  lemma {:induction false} StringsSplit(cmd: Command, i: nat)
    requires i <= |cmd|
    ensures |Strings(cmd[..i])| <= |Strings(cmd)|
  {
    if i > 0 {
      assert cmd[..i][1..] == cmd[1..][..i - 1];
      StringsSplit(cmd[1..], i - 1);
    }
  }

  /** send_req: the bytes written to the socket, or nothing exactly when some prefix is refused. */
  method SendReq(cmd: Command) returns (r: Option<Bytes>)
    ensures r == if Accepted(cmd) then Some(U32(|Payload(cmd)|) + Payload(cmd)) else None
  {
    hide U32, Little, Accepted;
    var size := PayloadSize(cmd);
    if size == None {
      return None;
    }
    var wbuf := U32(size.value) + U32(|cmd|);
    for i := 0 to |cmd|
      invariant wbuf == U32(size.value) + (U32(|cmd|) + Strings(cmd[..i]))
    {
      assert cmd[..i + 1] == cmd[..i] + [cmd[i]];
      StringsAppend(cmd[..i], cmd[i]);
      wbuf := wbuf + U32(|cmd[i]|);
      wbuf := wbuf + cmd[i];
    }
    assert cmd[..|cmd|] == cmd;
    SameHeader(|Payload(cmd)|);
    r := Some(wbuf);
  }

  lemma SameHeader(n: nat)
    ensures U32(n % TWO_32) == U32(n)
  {
  }

  /** Requests within the limit are accepted, and those are exactly the ones sent with a right header. */
  lemma HeaderIsRight(cmd: Command)
    ensures Accepted(cmd) && Number(U32(|Payload(cmd)|)) == |Payload(cmd)| <==> |Payload(cmd)| <= K_MAX_MSG
  {
    hide U32, Little, Number, Pow256;
    U32RoundTrip(|Payload(cmd)|, []);
    assert cmd[..|cmd|] == cmd;
    FitsMeans(cmd, |cmd|);
    forall i | 0 <= i <= |cmd| && |Payload(cmd)| <= K_MAX_MSG ensures PrefixFits(cmd, i) { StringsSplit(cmd, i); }
  }

  /** A string of less than this length cannot wrap the 32-bit size around. */
  const WRAP_LENGTH := TWO_32 - 4 - K_MAX_MSG

  /** Without a string long enough to wrap the sum, exactly the requests within the limit are accepted. */
  lemma ShortStringsDoNotWrap(cmd: Command)
    requires forall s <- cmd :: |s| < WRAP_LENGTH
    ensures Accepted(cmd) <==> |Payload(cmd)| <= K_MAX_MSG
  {
    HeaderIsRight(cmd);
    if Accepted(cmd) { PrefixesAreShort(cmd, |cmd|); }
    assert cmd[..|cmd|] == cmd;
  }

  lemma {:induction false} PrefixesAreShort(cmd: Command, i: nat)
    requires i <= |cmd| && Accepted(cmd) && forall s <- cmd :: |s| < WRAP_LENGTH
    ensures |Payload(cmd[..i])| <= K_MAX_MSG
  {
    hide U32, Little, Payload;
    NoStrings(cmd);
    if i > 0 {
      PrefixesAreShort(cmd, i - 1);
      OneMoreString(cmd, i - 1);
      FitsMeans(cmd, i);
    }
  }

  /** A request far over the limit that is accepted: its size wraps around to 4. */
  lemma LongStringWraps(s: Bytes)
    requires |s| == TWO_32 - 4
    ensures Accepted([s]) && |Payload([s])| > K_MAX_MSG && Number(U32(|Payload([s])|)) == 4
  {
    hide U32, Little, Number, Pow256, Payload;
    NoStrings([s]);
    OneMoreString([s], 0);
    FitsMeans([s], 1);
    assert [s][..1] == [s];
    U32RoundTrip(|Payload([s])|, []);
  }

  // ----- parsing -----

  /** parse_req: the cursor moves over the payload, string by string. */
  method ParseReq(data: Bytes) returns (r: Option<Command>)
    ensures r == Parse(data)
  {
    hide Pow256, Number;
    var curr: nat := 0;
    if curr + 4 > |data| {
      return None;
    }
    var nstr := Number(data[..4]);
    curr := curr + 4;
    if nstr > K_MAX_ARGS {
      return None;
    }
    var out: Command := [];
    PrependNothing(ParseStrings(nstr, data[4..]));
    while |out| < nstr
      invariant curr <= |data| && |out| <= nstr
      invariant Parse(data) == Prepend(out, ParseStrings(nstr - |out|, data[curr..]))
    {
      if curr + 4 > |data| {
        return None;
      }
      var len := Number(data[curr..curr + 4]);
      assert data[curr..][..4] == data[curr..curr + 4];
      if curr + 4 + len > |data| {
        return None;
      }
      assert data[curr..][4 + len..] == data[curr + 4 + len..];
      assert data[curr..][4..4 + len] == data[curr + 4..curr + 4 + len];
      curr := curr + 4;
      PrependAppend(out, data[curr..curr + len], ParseStrings(nstr - |out| - 1, data[curr + len..]));
      out := out + [data[curr..curr + len]];
      curr := curr + len;
    }
    assert out + [] == out;
    if curr != |data| {
      return None;
    }
    r := Some(out);
  }

  ghost function Prepend(out: Command, r: Option<Command>): Option<Command> {
    if r == None then None else Some(out + r.value)
  }

  lemma PrependNothing(r: Option<Command>)
    ensures Prepend([], r) == r
  {
    if r.Some? { assert [] + r.value == r.value; }
  }

  lemma PrependAppend(out: Command, s: Bytes, r: Option<Command>)
    ensures Prepend(out, Prepend([s], r)) == Prepend(out + [s], r)
  {
    if r.Some? { assert out + ([s] + r.value) == out + [s] + r.value; }
  }

  // ----- the two undo each other -----

  lemma {:induction false} ParseStringsOfStrings(cmd: Command)
    requires |Strings(cmd)| < TWO_32
    ensures ParseStrings(|cmd|, Strings(cmd)) == Some(cmd)
  {
    hide U32, Little, Number, Pow256;
    if cmd != [] {
      var s, rest, data := cmd[0], Strings(cmd[1..]), Strings(cmd);
      assert data == U32(|s|) + s + rest;
      U32RoundTrip(|s|, []);
      assert data[..4] == U32(|s|) && data[4..4 + |s|] == s && data[4 + |s|..] == rest;
      ParseStringsOfStrings(cmd[1..]);
      assert [s] + cmd[1..] == cmd;
    }
  }

  /** The first string and the others. */
  lemma FirstString(n: nat, data: Bytes)
    requires n > 0 && ParseStrings(n, data).Some?
    ensures |data| >= 4 && 4 + Number(data[..4]) <= |data|
    ensures var len := Number(data[..4]);
            var rest := ParseStrings(n - 1, data[4 + len..]);
            rest.Some? && ParseStrings(n, data).value == [data[4..4 + len]] + rest.value
  {
    hide Number;
  }

  lemma StringsCons(s: Bytes, cmd: Command)
    ensures Strings([s] + cmd) == U32(|s|) + s + Strings(cmd)
  {
    hide U32;
    assert ([s] + cmd)[1..] == cmd;
  }

  lemma ThreeParts(data: Bytes, i: nat, j: nat)
    requires i <= j <= |data|
    ensures data[..i] + data[i..j] + data[j..] == data
  {
  }

  lemma {:induction false} StringsOfParse(n: nat, data: Bytes)
    requires ParseStrings(n, data).Some?
    ensures var cmd := ParseStrings(n, data).value; |cmd| == n && Strings(cmd) == data
  {
    hide U32, Little, Number, Pow256;
    if n > 0 {
      hide ParseStrings, Strings;
      FirstString(n, data);
      var len := Number(data[..4]);
      StringsOfParse(n - 1, data[4 + len..]);
      StringsCons(data[4..4 + len], ParseStrings(n - 1, data[4 + len..]).value);
      U32RoundTrip(0, data[..4]);
      ThreeParts(data, 4, 4 + len);
    }
  }

  /** A payload is parsed back exactly when it has no more than K_MAX_ARGS strings. */
  lemma ParseOfPayload(cmd: Command)
    requires |Payload(cmd)| <= K_MAX_MSG
    ensures Parse(Payload(cmd)) == if |cmd| <= K_MAX_ARGS then Some(cmd) else None
  {
    hide U32, Little, Number, Pow256, ParseStrings, Strings;
    var data := Payload(cmd);
    StringsAreLong(cmd);
    U32RoundTrip(|cmd|, []);
    assert data[..4] == U32(|cmd|) && data[4..] == Strings(cmd);
    ParseStringsOfStrings(cmd);
  }

  lemma {:induction false} StringsAreLong(cmd: Command)
    ensures |cmd| <= |Strings(cmd)|
    ensures forall s <- cmd :: |s| <= |Strings(cmd)|
  {
    if cmd != [] {
      StringsAreLong(cmd[1..]);
      assert cmd == [cmd[0]] + cmd[1..];
    }
  }

  /** Only canonical encodings are accepted: a payload that parses is the encoding of its command. */
  lemma PayloadOfParse(data: Bytes)
    requires Parse(data).Some?
    ensures var cmd := Parse(data).value; |cmd| <= K_MAX_ARGS && Payload(cmd) == data
    ensures forall s <- Parse(data).value :: |s| <= |data|
  {
    StringsOfParse(Number(data[..4]), data[4..]);
    U32RoundTrip(0, data[..4]);
    assert data == data[..4] + data[4..];
    StringsAreLong(Parse(data).value);
  }

  // ----- the stream of requests -----

  datatype Step = More | Bad | Request(cmd: Command, size: nat)

  /** What the server makes of the bytes that have arrived: a whole request, a bad one, or too little. */
  function FirstRequest(buf: Bytes): (r: Step)
    ensures r.Request? ==> 4 <= r.size <= |buf|
  {
    if |buf| < 4 then More
    else
      var len := Number(buf[..4]);
      if len > K_MAX_MSG then Bad
      else if 4 + len > |buf| then More
      else
        match Parse(buf[4..4 + len])
        case None => Bad
        case Some(cmd) => Request(cmd, 4 + len)
  }

  /** The commands in a stream up to the first bad request, the bytes left over, and whether it was bad. */
  datatype Stream = Stream(cmds: seq<Command>, rest: Bytes, bad: bool)

  function Requested(buf: Bytes): Stream
    decreases |buf|
  {
    match FirstRequest(buf)
    case More => Stream([], buf, false)
    case Bad => Stream([], buf, true)
    case Request(cmd, size) =>
      var s := Requested(buf[size..]);
      s.(cmds := [cmd] + s.cmds)
  }

  /** The decision on a request does not change when more bytes follow. */
  lemma FirstRequestStable(a: Bytes, b: Bytes)
    requires !FirstRequest(a).More?
    ensures FirstRequest(a + b) == FirstRequest(a)
  {
    assert (a + b)[..4] == a[..4];
    var len := Number(a[..4]);
    if len <= K_MAX_MSG { assert (a + b)[4..4 + len] == a[4..4 + len]; }
  }

  /** A further chunk continues where the bytes before it left off. */
  lemma {:induction false} RequestedContinue(a: Bytes, b: Bytes)
    ensures var s, t := Requested(a), Requested(a + b);
            if s.bad then t.cmds == s.cmds && t.bad
            else t == Requested(s.rest + b).(cmds := s.cmds + Requested(s.rest + b).cmds)
    decreases |a|
  {
    hide FirstRequest;
    var f := FirstRequest(a);
    if !f.More? { FirstRequestStable(a, b); }
    if f.Request? {
      assert (a + b)[f.size..] == a[f.size..] + b;
      RequestedContinue(a[f.size..], b);
    }
  }

  function Concat(chunks: seq<Bytes>): Bytes {
    if chunks == [] then [] else Concat(chunks[..|chunks| - 1]) + chunks[|chunks| - 1]
  }

  /** A connection fed with chunks; once a request is bad it is closed and reads nothing more. */
  function Feed(chunks: seq<Bytes>): Stream {
    if chunks == [] then Stream([], [], false)
    else
      var s := Feed(chunks[..|chunks| - 1]);
      if s.bad then s
      else
        var t := Requested(s.rest + chunks[|chunks| - 1]);
        t.(cmds := s.cmds + t.cmds)
  }

  /** However the stream is cut into chunks, the commands are those of the whole. */
  lemma {:induction false} ChunkingIsInvisible(chunks: seq<Bytes>)
    ensures var s, t := Feed(chunks), Requested(Concat(chunks));
            s.cmds == t.cmds && s.bad == t.bad && (!s.bad ==> s.rest == t.rest)
    ensures !Feed(chunks).bad ==> FirstRequest(Feed(chunks).rest).More?
  {
    if chunks != [] {
      var before, last := chunks[..|chunks| - 1], chunks[|chunks| - 1];
      ChunkingIsInvisible(before);
      RequestedContinue(Concat(before), last);
      if !Feed(before).bad { RestIsIncomplete(Feed(before).rest + last); }
    }
  }

  /** The bytes left over hold no complete request. */
  lemma {:induction false} RestIsIncomplete(buf: Bytes)
    ensures var s, next := Requested(buf), FirstRequest(Requested(buf).rest);
            if s.bad then next.Bad? else next.More?
    decreases |buf|
  {
    var f := FirstRequest(buf);
    if f.Request? { RestIsIncomplete(buf[f.size..]); }
  }

  /** A client's requests, sent one after another, are the commands the server decodes. */
  function Sent(cmds: seq<Command>): Bytes {
    if cmds == [] then [] else U32(|Payload(cmds[0])|) + Payload(cmds[0]) + Sent(cmds[1..])
  }

  lemma {:induction false} SentIsReceived(cmds: seq<Command>)
    requires forall c <- cmds :: |Payload(c)| <= K_MAX_MSG && |c| <= K_MAX_ARGS
    ensures Requested(Sent(cmds)) == Stream(cmds, [], false)
  {
    hide U32, Little, Number, Pow256, Parse, Payload;
    if cmds != [] {
      hide FirstRequest;
      SentFirst(cmds);
      SentIsReceived(cmds[1..]);
      assert [cmds[0]] + cmds[1..] == cmds;
    }
  }

  /** The first request, and the rest of the bytes. */
  lemma SentFirst(cmds: seq<Command>)
    requires cmds != [] && |Payload(cmds[0])| <= K_MAX_MSG && |cmds[0]| <= K_MAX_ARGS
    ensures var size := 4 + |Payload(cmds[0])|;
            && FirstRequest(Sent(cmds)) == Request(cmds[0], size)
            && size <= |Sent(cmds)| && Sent(cmds)[size..] == Sent(cmds[1..])
  {
    hide U32, Little, Number, Pow256, Parse, Payload;
    var p, rest, buf := Payload(cmds[0]), Sent(cmds[1..]), Sent(cmds);
    assert buf == U32(|p|) + p + rest;
    U32RoundTrip(|p|, []);
    assert buf[..4] == U32(|p|) && buf[4..4 + |p|] == p && buf[4 + |p|..] == rest;
    ParseOfPayload(cmds[0]);
  }
}
