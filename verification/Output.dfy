/**
 * Serialising responses into the output buffer, and framing them.
 */
module Output {
  import opened Names
  import opened Bits
  import opened Requests
  import opened Responses
  import opened Buffers

  /** Append to a buffer whose data starts at the front: there is always room. */
  method Put(out: Buffer, data: Bytes)
    requires out.Front()
    modifies out, out.mem
    ensures out.Front() && out.Contents() == old(out.Contents()) + data
    ensures out.mem == old(out.mem) || fresh(out.mem)
  {
    FrontFits(out.AsLayout(), |data|);
    var inside := out.Append(data);
    assert inside;
  }

  /** Appending piece by piece appends the whole. */
  lemma Pieces(was: Bytes, a: Bytes, b: Bytes, c: Bytes, d: Bytes)
    ensures was + a + b == was + (a + b)
    ensures was + a + b + c == was + (a + b + c)
    ensures was + a + b + c + d == was + (a + b + c + d)
  {
  }

  method OutNil(out: Buffer)
    requires out.Front()
    modifies out, out.mem
    ensures out.Front() && out.Contents() == old(out.Contents()) + Encode(Nil)
    ensures out.mem == old(out.mem) || fresh(out.mem)
  {
    hide Buffer.Contents, Buffer.Front;
    Put(out, [TAG_NIL]);
  }

  method OutStr(out: Buffer, s: Bytes)
    requires out.Front()
    modifies out, out.mem
    ensures out.Front() && out.Contents() == old(out.Contents()) + Encode(Str(s))
    ensures out.mem == old(out.mem) || fresh(out.mem)
  {
    hide Buffer.Contents, Buffer.Front, U32;
    Pieces(out.Contents(), [TAG_STR], U32(|s|), s, []);
    Put(out, [TAG_STR]);
    Put(out, U32(|s|));
    Put(out, s);
  }

  method OutInt(out: Buffer, v: int)
    requires out.Front()
    modifies out, out.mem
    ensures out.Front() && out.Contents() == old(out.Contents()) + Encode(Int(v))
    ensures out.mem == old(out.mem) || fresh(out.mem)
  {
    hide Buffer.Contents, Buffer.Front, U64;
    Pieces(out.Contents(), [TAG_INT], U64(v), [], []);
    Put(out, [TAG_INT]);
    Put(out, U64(v));
  }

  method OutDbl(out: Buffer, x: Score)
    requires out.Front()
    modifies out, out.mem
    ensures out.Front() && out.Contents() == old(out.Contents()) + Encode(Dbl(ScoreBits(x)))
    ensures out.mem == old(out.mem) || fresh(out.mem)
  {
    hide Buffer.Contents, Buffer.Front, U64;
    Pieces(out.Contents(), [TAG_DBL], U64(ScoreBits(x)), [], []);
    Put(out, [TAG_DBL]);
    Put(out, U64(ScoreBits(x)));
  }

  method OutErr(out: Buffer, code: nat, msg: Bytes)
    requires out.Front()
    modifies out, out.mem
    ensures out.Front() && out.Contents() == old(out.Contents()) + Encode(Err(code, msg))
    ensures out.mem == old(out.mem) || fresh(out.mem)
  {
    hide Buffer.Contents, Buffer.Front, U32;
    Pieces(out.Contents(), [TAG_ERR], U32(code), U32(|msg|), msg);
    Put(out, [TAG_ERR]);
    Put(out, U32(code));
    Put(out, U32(|msg|));
    Put(out, msg);
  }

  /** The head of an array of n items; the items are added separately. */
  function ArrHead(n: nat): Bytes { [TAG_ARR] + U32(n) }

  lemma ArrIsHeadAndItems(items: seq<Res>)
    ensures Encode(Arr(items)) == ArrHead(|items|) + EncodeAll(items)
  {
  }

  method OutArr(out: Buffer, n: nat)
    requires out.Front()
    modifies out, out.mem
    ensures out.Front() && out.Contents() == old(out.Contents()) + ArrHead(n)
    ensures out.mem == old(out.mem) || fresh(out.mem)
  {
    hide Buffer.Contents, Buffer.Front, U32;
    Pieces(out.Contents(), [TAG_ARR], U32(n), [], []);
    Put(out, [TAG_ARR]);
    Put(out, U32(n));
  }

  /** out_begin_arr: a head with the count still to be filled in at the returned position. */
  method BeginArr(out: Buffer) returns (pos: nat)
    requires out.Front()
    modifies out, out.mem
    ensures out.Front() && out.Contents() == old(out.Contents()) + ArrHead(0)
    ensures pos == |old(out.Contents())| + 1
    ensures out.mem == old(out.mem) || fresh(out.mem)
  {
    OutArr(out, 0);
    pos := out.Size() - 4;
  }

  lemma FillHead(was: Bytes, n: nat, items: Bytes)
    ensures var s := was + ArrHead(0) + items; var pos := |was| + 1;
            s[..pos] + U32(n) + s[pos + 4..] == was + (ArrHead(n) + items)
  {
  }

  /** out_end_arr: the array that began at pos - 1 gets its count. */
  method EndArr(out: Buffer, pos: nat, n: nat, ghost was: Bytes, ghost items: Bytes)
    requires out.Front() && out.Contents() == was + ArrHead(0) + items && pos == |was| + 1
    modifies out.mem
    ensures out.Front() && out.Contents() == was + (ArrHead(n) + items)
  {
    assert out.Contents()[pos - 1] == TAG_ARR;
    FillHead(was, n, items);
    out.Patch(pos, U32(n));
  }

  // ----- framing -----

  /** The reply the client gets: the response, or an error when it is too big. */
  function Reply(r: Res): Res {
    if |Encode(r)| <= K_MAX_MSG then r else Err(ERR_TOO_BIG, Ascii("response is too big."))
  }

  /** A message with its header. */
  function Frame(payload: Bytes): Bytes { U32(|payload|) + payload }

  /** response_begin: reserve the header. */
  method ResponseBegin(out: Buffer) returns (headerPos: nat)
    requires out.Front()
    modifies out, out.mem
    ensures out.Front() && out.Contents() == old(out.Contents()) + U32(0)
    ensures headerPos == |old(out.Contents())|
    ensures out.mem == old(out.mem) || fresh(out.mem)
  {
    headerPos := out.Size();
    Put(out, U32(0));
  }

  lemma FillHeader(was: Bytes, h: Bytes, payload: Bytes, n: nat)
    requires |h| == 4
    ensures var s := was + h + payload;
            && s[..|was|] + U32(n) + s[|was| + 4..] == was + (U32(n) + payload)
            && s[..|was| + 4] == was + h
  {
  }

  /** response_end: the final size goes into the header; a response that is too big is replaced. */
  method ResponseEnd(out: Buffer, headerPos: nat, ghost was: Bytes, ghost r: Res)
    requires out.Front() && out.Contents() == was + U32(0) + Encode(r) && headerPos == |was|
    modifies out, out.mem
    ensures out.Front() && out.Contents() == was + Frame(Encode(Reply(r)))
    ensures out.mem == old(out.mem) || fresh(out.mem)
  {
    hide Encode, U32, Buffer.Contents;
    var msgSize := ContentSize(out, headerPos);
    FillHeader(was, U32(0), Encode(r), msgSize);
    if msgSize > K_MAX_MSG {
      out.Truncate(headerPos + 4);
      OutErr(out, ERR_TOO_BIG, Ascii("response is too big."));
      msgSize := ContentSize(out, headerPos);
      FillHeader(was, U32(0), Encode(Reply(r)), msgSize);
    }
    out.Patch(headerPos, U32(msgSize));
  }

  /** response_size */
  method ContentSize(out: Buffer, headerPos: nat) returns (n: int)
    requires out.Front()
    ensures n == |out.Contents()| - headerPos - 4
  {
    n := out.Size() - headerPos - 4;
  }
}
