/**
 * Messages byte by byte: lengths and numbers have their lowest byte first, and every kind of response its tag.
 */
module Wire {
  import opened Names
  import opened Bits
  import opened Requests
  import opened Responses
  import opened Output
  import opened Laws

  /** The four low bytes of a number, lowest first. */
  function Four(n: nat): Bytes { [n % 0x100, n / 0x100 % 0x100, n / 0x1_0000 % 0x100, n / 0x100_0000 % 0x100] }

  /** The eight bytes of a number, lowest first. */
  function Eight(n: nat): (s: Bytes)
    ensures |s| == 8
  {
    Four(n) + Four(n / 0x1_0000_0000)
  }

  lemma FourIsU32(n: nat)
    requires n < 0x1_0000_0000
    ensures U32(n) == Four(n)
  {
    U32Bytes(n);
  }

  /** Two's complement: a negative number counts from 2^64 down. */
  lemma EightIsU64(v: int)
    requires IsInt64(v)
    ensures U64(v) == Eight(if v < 0 then v + 0x1_0000_0000_0000_0000 else v)
  {
    hide Little, Pow256, Eight, U64;
    var n := if v < 0 then v + 0x1_0000_0000_0000_0000 else v;
    PlacesAreWorth();
    forall i: nat | i < 8 ensures U64(v)[i] == Eight(n)[i] {
      U64Bytes(v, i);
      EightAt(n, i);
    }
    SameBytes(U64(v), Eight(n));
  }

  lemma EightAt(n: nat, i: nat)
    requires i < 8
    ensures Eight(n)[i] == n / Pow256(i) % 0x100
  {
    PlacesAreWorth();
    if i >= 4 { DivTwice(n, 0x1_0000_0000, Pow256(i - 4)); }
  }

  /** A message: its length in front. */
  lemma FrameBytes(e: Bytes)
    requires |e| < 0x1_0000_0000
    ensures Frame(e) == Four(|e|) + e
  {
    FourIsU32(|e|);
  }

  /** A response by its tag; every length goes before what it counts. */
  lemma ResponseBytes(r: Res)
    ensures r.Nil? ==> Encode(r) == [0]
    ensures r.Err? && r.code < 0x1_0000_0000 && |r.msg| < 0x1_0000_0000 ==>
              Encode(r) == [1] + Four(r.code) + Four(|r.msg|) + r.msg
    ensures r.Str? && |r.s| < 0x1_0000_0000 ==> Encode(r) == [2] + Four(|r.s|) + r.s
    ensures r.Int? && IsInt64(r.v) ==>
              Encode(r) == [3] + Eight(if r.v < 0 then r.v + 0x1_0000_0000_0000_0000 else r.v)
    ensures r.Dbl? && r.bits < 0x1_0000_0000_0000_0000 ==> Encode(r) == [4] + Eight(r.bits)
    ensures r.Arr? && |r.items| < 0x1_0000_0000 ==> Encode(r) == [5] + Four(|r.items|) + EncodeAll(r.items)
  {
    hide U32, U64, Four, Eight;
    match r
    case Nil =>
    case Err(code, msg) =>
      if code < 0x1_0000_0000 { FourIsU32(code); }
      if |msg| < 0x1_0000_0000 { FourIsU32(|msg|); }
    case Str(s) => if |s| < 0x1_0000_0000 { FourIsU32(|s|); }
    case Int(v) => if IsInt64(v) { EightIsU64(v); }
    case Dbl(bits) => if bits < 0x1_0000_0000_0000_0000 { EightOfBits(bits); }
    case Arr(items) => if |items| < 0x1_0000_0000 { FourIsU32(|items|); }
  }

  lemma EightOfBits(n: nat)
    requires n < 0x1_0000_0000_0000_0000
    ensures U64(n) == Eight(n)
  {
    hide Little, Pow256, Eight, U64;
    LittleOfBits(n);
    forall i: nat | i < 8 ensures U64(n)[i] == Eight(n)[i] {
      LittleAt(8, n, i);
      EightAt(n, i);
    }
    SameBytes(U64(n), Eight(n));
  }

  lemma LittleOfBits(n: nat)
    requires n < 0x1_0000_0000_0000_0000
    ensures U64(n) == Little(8, n)
  {
    hide Little;
  }

  lemma SameBytes(a: Bytes, b: Bytes)
    requires |a| == |b| && forall i: nat | i < |a| :: a[i] == b[i]
    ensures a == b
  {
  }

  /** A response of more than 32 MB is replaced by an error. */
  lemma ReplyMeans(r: Res)
    ensures Reply(r) == if |Encode(r)| <= 33554432 then r else Err(2, Ascii("response is too big."))
  {
  }

  /** The bytes of a request: its size, the number of its strings, and each string after its length. */
  lemma RequestBytes(cmd: Command, s: Bytes)
    requires |cmd| < 0xFFFF_FFFF && |s| < 0x1_0000_0000
    ensures Payload([]) == Four(0)
    ensures Payload(cmd + [s]) == Four(|cmd| + 1) + Payload(cmd)[4..] + Four(|s|) + s
  {
    hide U32, Four;
    FourIsU32(0);
    FourIsU32(|cmd| + 1);
    FourIsU32(|s|);
    StringsAppend(cmd, s);
    assert Payload(cmd)[4..] == Strings(cmd);
  }

  /** What send_req writes: the size of the payload, lowest byte first, and the payload. */
  lemma SentBytes(cmd: Command)
    requires |Payload(cmd)| <= 33554432
    ensures Accepted(cmd) && U32(|Payload(cmd)|) + Payload(cmd) == Four(|Payload(cmd)|) + Payload(cmd)
  {
    HeaderIsRight(cmd);
    FourIsU32(|Payload(cmd)|);
    U32RoundTrip(|Payload(cmd)|, []);
  }

  /** What four bytes at the front of the input announce. */
  function Announced(buf: Bytes): nat
    requires |buf| >= 4
  {
    buf[0] + 0x100 * (buf[1] as int) + 0x1_0000 * (buf[2] as int) + 0x100_0000 * (buf[3] as int)
  }

  /** A request of more than 32 MB is bad as soon as its size is known; others wait until they are complete. */
  lemma FirstRequestMeans(buf: Bytes)
    ensures |buf| < 4 ==> FirstRequest(buf).More?
    ensures |buf| >= 4 ==>
      var n := Announced(buf);
      && (n > 33554432 ==> FirstRequest(buf).Bad?)
      && (n <= 33554432 && 4 + n > |buf| ==> FirstRequest(buf).More?)
      && (n <= 33554432 && 4 + n <= |buf| ==>
            FirstRequest(buf) == match Parse(buf[4..4 + n]) case None => Bad case Some(cmd) => Request(cmd, 4 + n))
  {
    hide Number, Parse;
    if |buf| >= 4 { NumberOfFour(buf[..4]); }
  }

  /** A request of more than 200000 strings is bad. */
  lemma TooManyStrings(data: Bytes)
    requires |data| >= 4 && Announced(data) > 200000
    ensures Parse(data) == None
  {
    hide Number;
    NumberOfFour(data[..4]);
  }

  /** The bytes 10 00 00 00 | 02 00 00 00 | 03 00 00 00 g e t | 01 00 00 00 k are the request get k. */
  lemma GetOnTheWire()
    ensures var cmd: Command := [GET, [107]];
            && Payload(cmd) == [2, 0, 0, 0] + [3, 0, 0, 0] + GET + [1, 0, 0, 0] + [107]
            && FirstRequest([16, 0, 0, 0] + Payload(cmd)) == Request(cmd, 20)
  {
    hide U32, Number, Parse, Strings;
    var cmd: Command := [GET, [107]];
    RequestBytes([], GET);
    RequestBytes([GET], [107]);
    assert [] + [GET] == [GET] && [GET] + [[107]] == cmd;
    assert Payload([]) == [0, 0, 0, 0] && Payload([])[4..] == [];
    assert Payload([GET]) == [1, 0, 0, 0] + [3, 0, 0, 0] + GET;
    assert Payload([GET])[4..] == [3, 0, 0, 0] + GET;
    ParseOfPayload(cmd);
    var buf := [16, 0, 0, 0] + Payload(cmd);
    FirstRequestMeans(buf);
    assert buf[4..20] == Payload(cmd);
  }

  /** The replies 1 and -1, and none, on the wire. */
  lemma RepliesOnTheWire()
    ensures Frame(Encode(Int(1))) == [9, 0, 0, 0] + [3, 1, 0, 0, 0, 0, 0, 0, 0]
    ensures Frame(Encode(Int(-1))) == [9, 0, 0, 0] + [3, 255, 255, 255, 255, 255, 255, 255, 255]
    ensures Frame(Encode(Nil)) == [1, 0, 0, 0] + [0]
  {
    hide Encode, Frame, U32, U64;
    ResponseBytes(Int(1));
    ResponseBytes(Int(-1));
    ResponseBytes(Nil);
    FrameBytes(Encode(Int(1)));
    FrameBytes(Encode(Int(-1)));
    FrameBytes(Encode(Nil));
  }
}
