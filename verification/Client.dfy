/**
 * The client's side of the wire: every reply the server frames is read back whole.
 */
module Client {
  import opened Names
  import opened Bits
  import opened PairOrder
  import opened Requests
  import opened Responses
  import opened Output
  import opened Worlds
  import A = Abstract

  /**
   * What n commands up to time now can have made of an empty store: no set has more than n names, and
   * every deadline is within the longest time to live from now.
   */
  ghost predicate Bounded(s: A.Abs, now: nat, n: nat) {
    && (forall k <- s.values :: s.values[k].SetV? ==> |s.values[k].scores| <= n)
    && (forall k <- s.deadlines :: s.deadlines[k] < now + TWO_63)
  }

  /** strtoll gives an int64_t. */
  ghost predicate Sane(lib: A.Library) {
    forall s :: lib.num(s).Some? ==> IsInt64(lib.num(s).value)
  }

  lemma {:induction false} ItemsFit(s: seq<Pair>)
    ensures forall x <- A.Items(s) :: Fits(x)
  {
    if s != [] { ItemsFit(s[..|s| - 1]); }
  }

  lemma {:induction false} KeyItemsFit(ks: seq<Bytes>)
    ensures forall x <- A.KeyItems(ks) :: Fits(x)
  {
    if ks != [] { KeyItemsFit(ks[..|ks| - 1]); }
  }

  lemma BelowFits(z: Scores, p: Pair)
    ensures Below(z, p) <= |z|
  {
    var names := NamesBelow(z, p);
    assert names <= z.Keys && |z.Keys| == |z|;
    assert z.Keys == names + (z.Keys - names);
  }

  lemma ZRankFits(s: A.Abs, key: Bytes, name: Bytes, now: nat, n: nat)
    requires Bounded(s, now, n) && n < TWO_63
    ensures Fits(A.ZRank(s, key, name).r)
  {
    hide Ascii, Below;
    if key in s.values && s.values[key].SetV? {
      var z := s.values[key].scores;
      if name in z { BelowFits(z, P(z[name], name)); }
    }
  }

  lemma ZQueryFits(s: A.Abs, key: Bytes, score: Option<Score>, name: Bytes, offset: Option<int>, limit: Option<int>)
    ensures Fits(A.ZQuery(s, key, score, name, offset, limit).r)
  {
    hide Ascii, A.Window;
    if key in s.values && s.values[key].SetV? && score.Some? && offset.Some? && limit.Some? {
      ItemsFit(A.Window(s.values[key].scores, P(score.value, name), offset.value, limit.value));
    }
  }

  lemma HandleFits(s: A.Abs, cmd: Command, now: nat, lib: A.Library, n: nat)
    requires !A.Aborts(cmd, lib) && cmd != [] && A.CmdIndex(cmd[0], 0) != -1 &&
             |cmd| == A.CMD_TABLE[A.CmdIndex(cmd[0], 0)].1
    requires Bounded(s, now, n) && n < TWO_63
    ensures Fits(A.Handle(s, cmd, now, lib).r)
  {
    hide Ascii, A.CmdIndex, A.ZRank, A.ZQuery;
    var i := A.CmdIndex(cmd[0], 0);
    if i == 7 {
      ZRankFits(s, cmd[1], cmd[2], now, n);
    } else if i == 8 {
      ZQueryFits(s, cmd[1], lib.dbl(cmd[2]), cmd[3], lib.num(cmd[4]), lib.num(cmd[5]));
    }
  }

  /** Every answer is well formed: its numbers fit their fields. */
  lemma AnswerFits(s: A.Abs, cmd: Command, now: nat, lib: A.Library, s': A.Abs, r: Res, n: nat)
    requires !A.Aborts(cmd, lib) && A.Answers(s, cmd, now, lib, s', r) && Bounded(s, now, n) && n < TWO_63
    ensures Fits(r)
  {
    hide Ascii, A.CmdIndex, A.Handle, A.KeyItems, Bounded;
    if cmd != [] && A.CmdIndex(cmd[0], 0) != -1 && |cmd| == A.CMD_TABLE[A.CmdIndex(cmd[0], 0)].1 {
      if A.CmdIndex(cmd[0], 0) == 3 {
        var ks :| r == Arr(A.KeyItems(ks));
        KeyItemsFit(ks);
      } else {
        HandleFits(s, cmd, now, lib, n);
      }
    }
  }

  lemma SizeAfterSet(z: Scores, name: Bytes, score: Score)
    ensures |z[name := score]| <= |z| + 1 && |z - {name}| <= |z|
  {
    assert z[name := score].Keys == z.Keys + {name} && (z - {name}).Keys == z.Keys - {name};
    assert |z[name := score]| == |z[name := score].Keys| && |z| == |z.Keys| && |z - {name}| == |(z - {name}).Keys|;
  }

  lemma ZAddKeepsBound(s: A.Abs, key: Bytes, score: Option<Score>, name: Bytes, now: nat, n: nat)
    requires Bounded(s, now, n)
    ensures Bounded(A.ZAdd(s, key, score, name).next, now, n + 1)
  {
    hide Ascii;
    if key in s.values && s.values[key].SetV? && score.Some? { SizeAfterSet(s.values[key].scores, name, score.value); }
  }

  lemma ZRemKeepsBound(s: A.Abs, key: Bytes, name: Bytes, now: nat, n: nat)
    requires Bounded(s, now, n)
    ensures Bounded(A.ZRem(s, key, name).next, now, n + 1)
  {
    hide Ascii;
    if key in s.values && s.values[key].SetV? { SizeAfterSet(s.values[key].scores, name, 0); }
  }

  /** One more command keeps the bound. */
  lemma HandleKeepsBound(s: A.Abs, cmd: Command, now: nat, lib: A.Library, n: nat)
    requires !A.Aborts(cmd, lib) && cmd != [] && A.CmdIndex(cmd[0], 0) != -1 &&
             |cmd| == A.CMD_TABLE[A.CmdIndex(cmd[0], 0)].1
    requires Bounded(s, now, n) && Sane(lib)
    ensures Bounded(A.Handle(s, cmd, now, lib).next, now, n + 1)
  {
    hide Ascii, A.CmdIndex, A.ZAdd, A.ZRem, Below, Ordered, A.Window, A.Items;
    var i := A.CmdIndex(cmd[0], 0);
    if i == 4 {
      ZAddKeepsBound(s, cmd[1], lib.dbl(cmd[2]), cmd[3], now, n);
    } else if i == 5 {
      ZRemKeepsBound(s, cmd[1], cmd[2], now, n);
    }
  }

  lemma AnswerKeepsBound(s: A.Abs, cmd: Command, now: nat, lib: A.Library, s': A.Abs, r: Res, n: nat)
    requires !A.Aborts(cmd, lib) && A.Answers(s, cmd, now, lib, s', r) && Bounded(s, now, n) && Sane(lib)
    ensures Bounded(s', now, n + 1)
  {
    hide Ascii, A.CmdIndex, A.Handle, A.ListsKeys;
    if cmd != [] && A.CmdIndex(cmd[0], 0) != -1 && |cmd| == A.CMD_TABLE[A.CmdIndex(cmd[0], 0)].1 {
      HandleKeepsBound(s, cmd, now, lib, n);
    }
  }

  /** The reply in a frame: the response itself, or the error that replaces it, within the limit. */
  lemma ReplyIsRead(r: Res)
    requires Fits(r)
    ensures var e := Encode(Reply(r));
            && |e| <= K_MAX_MSG && Number(U32(|e|)) == |e|
            && Decode(e) == Some((Reply(r), |e|)) && Fits(Reply(r))
  {
    hide Decode, Number, U32, Fits;
    var e := Encode(Reply(r));
    TooBigIsSmall();
    U32RoundTrip(|e|, []);
    DecodeOfEncode(Reply(r), []);
    assert e + [] == e;
  }

  lemma TooBigIsSmall()
    ensures var r := Err(ERR_TOO_BIG, Ascii("response is too big.")); |Encode(r)| <= K_MAX_MSG && Fits(r)
  {
  }

  // ----- a stream of replies -----

  /** read_res and print_res over and over; None when a message is bad or incomplete. */
  function ReadReplies(data: Bytes): Option<seq<Res>>
    decreases |data|
  {
    if data == [] then Some([])
    else if |data| < 4 || Number(data[..4]) > K_MAX_MSG || 4 + Number(data[..4]) > |data| then None
    else
      var len := Number(data[..4]);
      match Decode(data[4..4 + len])
      case None => None
      case Some((r, consumed)) =>
        if consumed != len then None
        else
          match ReadReplies(data[4 + len..])
          case None => None
          case Some(rest) => Some([r] + rest)
  }

  function RepliesTo(rs: seq<Res>): seq<Res> {
    if rs == [] then [] else RepliesTo(rs[..|rs| - 1]) + [Reply(rs[|rs| - 1])]
  }

  lemma OneReply(r: Res)
    requires Fits(r)
    ensures ReadReplies(Frame(Encode(Reply(r)))) == Some([Reply(r)])
  {
    hide Decode, Number, U32, Encode, Fits, Reply;
    var e := Encode(Reply(r));
    var f := Frame(e);
    ReplyIsRead(r);
    assert f[..4] == U32(|e|) && f[4..4 + |e|] == e && f[4 + |e|..] == [];
    assert [Reply(r)] + [] == [Reply(r)];
  }

  /** A frame at the end of the stream is one more reply. */
  lemma {:induction false} ReadAppend(data: Bytes, r: Res)
    requires ReadReplies(data).Some? && Fits(r)
    ensures ReadReplies(data + Frame(Encode(Reply(r)))) == Some(ReadReplies(data).value + [Reply(r)])
    decreases |data|
  {
    hide Decode, Number, U32, Encode, Fits, Reply;
    var e := Encode(Reply(r));
    var f := Frame(e);
    var all := data + f;
    if data == [] {
      OneReply(r);
      assert all == f && [] + [Reply(r)] == [Reply(r)];
    } else {
      var len := Number(data[..4]);
      var rest := data[4 + len..];
      assert all[..4] == data[..4] && all[4..4 + len] == data[4..4 + len] && all[4 + len..] == rest + f;
      ReadAppend(rest, r);
      var q := Decode(data[4..4 + len]).value.0;
      assert [q] + ReadReplies(rest).value + [Reply(r)] == [q] + (ReadReplies(rest).value + [Reply(r)]);
    }
  }

  /** The client reads exactly the server's replies, in order, and nothing is left over. */
  lemma {:induction false} RepliesAreRead(rs: seq<Res>)
    requires forall r <- rs :: Fits(r)
    ensures ReadReplies(Frames(rs)) == Some(RepliesTo(rs))
  {
    hide Encode, Frame, Reply, Fits;
    if rs != [] {
      var before, r := rs[..|rs| - 1], rs[|rs| - 1];
      RepliesAreRead(before);
      ReadAppend(Frames(before), r);
    }
  }
}
