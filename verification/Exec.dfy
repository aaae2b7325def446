/**
 * The command handlers: each changes the store and appends its reply to the output buffer.
 */
module Exec {
  import opened Names
  import opened PairOrder
  import opened ZSets
  import opened Entries
  import opened Ledgers
  import opened Stores
  import opened Commands
  import opened Query
  import opened Bits
  import opened Requests
  import opened Responses
  import opened Buffers
  import opened Output
  import A = Abstract

  /** The store and the buffer are sound and apart, and the buffer's data is at the front. */
  ghost predicate Ready(st: Store, out: Buffer)
    reads st, st.core, st.zparts, out
    ensures Ready(st, out) ==> out.Front() && st.Ok() && {out, out.mem} !! st.core + st.zparts
  {
    st.Ok() && out.Front() && {out, out.mem} !! st.core + st.zparts
  }

  /** A change to the store alone keeps the two ready. */
  lemma StillReady(st: Store, out: Buffer)
    requires st.Ok() && out.Front() && out !in st.core + st.zparts && out.mem !in st.core + st.zparts
    ensures Ready(st, out)
  {
  }

  // ----- replies -----

  method SayNil(st: Store, out: Buffer)
    requires Ready(st, out)
    modifies out, out.mem
    ensures Ready(st, out) && (out.mem == old(out.mem) || fresh(out.mem))
    ensures st.State() == old(st.State()) && st.Owners() == old(st.Owners())
    ensures out.Contents() == old(out.Contents()) + Encode(Nil)
  {
    hide Store.Ok, Store.Deadlines, Encode, Buffer.Contents;
    OutNil(out);
  }

  method SayInt(st: Store, out: Buffer, v: int)
    requires Ready(st, out)
    modifies out, out.mem
    ensures Ready(st, out) && (out.mem == old(out.mem) || fresh(out.mem))
    ensures st.State() == old(st.State()) && st.Owners() == old(st.Owners())
    ensures out.Contents() == old(out.Contents()) + Encode(Int(v))
  {
    hide Store.Ok, Store.Deadlines, Encode, Buffer.Contents;
    OutInt(out, v);
  }

  method SayDbl(st: Store, out: Buffer, x: Score)
    requires Ready(st, out)
    modifies out, out.mem
    ensures Ready(st, out) && (out.mem == old(out.mem) || fresh(out.mem))
    ensures st.State() == old(st.State()) && st.Owners() == old(st.Owners())
    ensures out.Contents() == old(out.Contents()) + Encode(Dbl(ScoreBits(x)))
  {
    hide Store.Ok, Store.Deadlines, Encode, Buffer.Contents;
    OutDbl(out, x);
  }

  method SayStr(st: Store, out: Buffer, s: Bytes)
    requires Ready(st, out)
    modifies out, out.mem
    ensures Ready(st, out) && (out.mem == old(out.mem) || fresh(out.mem))
    ensures st.State() == old(st.State()) && st.Owners() == old(st.Owners())
    ensures out.Contents() == old(out.Contents()) + Encode(Str(s))
  {
    hide Store.Ok, Store.Deadlines, Encode, Buffer.Contents;
    OutStr(out, s);
  }

  method SayErr(st: Store, out: Buffer, code: nat, msg: string)
    requires Ready(st, out)
    modifies out, out.mem
    ensures Ready(st, out) && (out.mem == old(out.mem) || fresh(out.mem))
    ensures st.State() == old(st.State()) && st.Owners() == old(st.Owners())
    ensures out.Contents() == old(out.Contents()) + Encode(Err(code, Ascii(msg)))
  {
    hide Store.Ok, Store.Deadlines, Encode, Buffer.Contents, Ascii;
    OutErr(out, code, Ascii(msg));
  }

  /** A new value under a key of the store. */
  lemma KeepsKeys(s: A.Abs, s': A.Abs, key: Bytes)
    requires key in s.values && key in s'.values && s'.values == s.values[key := s'.values[key]]
    ensures s'.values.Keys == s.values.Keys
  {
  }

  // ----- handlers -----

  /** get key */
  method ExecGet(st: Store, key: Bytes, out: Buffer)
    requires Ready(st, out)
    modifies st.core, st.zparts, out, out.mem
    ensures Ready(st, out) && (out.mem == old(out.mem) || fresh(out.mem))
    ensures fresh(st.core - old(st.core)) && fresh(st.zparts - old(st.zparts))
    ensures Follows(old(st.State()), old(st.Owners()), st.State(), st.Owners())
    ensures var o := A.Get(old(st.State()), key);
            st.State() == o.next && out.Contents() == old(out.Contents()) + Encode(o.r)
  {
    hide Follows, Store.Ok, Store.Deadlines, Store.Owners, Encode, Buffer.Contents, Buffer.Front, Ascii;
    KeysStay(st.State(), st.Owners(), st.State());
    var e := Seek(st, key);
    StillReady(st, out);
    if e == null {
      SayNil(st, out);
    } else if e.isZSet {
      SayErr(st, out, ERR_BAD_TYPE, "not a string value");
    } else {
      SayStr(st, out, e.str);
    }
  }

  /** set key val */
  method ExecSet(st: Store, key: Bytes, val: Bytes, out: Buffer)
    requires Ready(st, out)
    modifies st.core, st.zparts, out, out.mem
    ensures Ready(st, out) && (out.mem == old(out.mem) || fresh(out.mem))
    ensures fresh(st.core - old(st.core)) && fresh(st.zparts - old(st.zparts))
    ensures Follows(old(st.State()), old(st.Owners()), st.State(), st.Owners())
    ensures var o := A.Set(old(st.State()), key, val);
            st.State() == o.next && out.Contents() == old(out.Contents()) + Encode(o.r)
  {
    hide Follows, Store.Ok, Store.Deadlines, Store.Owners, Encode, Buffer.Contents, Buffer.Front, Ascii;
    ghost var s, owners := st.State(), st.Owners();
    KeysStay(s, owners, s);
    var e := Seek(st, key);
    StillReady(st, out);
    if e != null {
      if e.isZSet {
        SayErr(st, out, ERR_BAD_TYPE, "a non-string value exists");
        return;
      }
      PutStr(st, e, val);
      KeepsKeys(s, st.State(), key);
      KeysStay(s, owners, st.State());
    } else {
      e := AddKey(st, key, false, val);
    }
    StillReady(st, out);
    SayNil(st, out);
  }

  /** del key */
  method ExecDel(st: Store, key: Bytes, out: Buffer)
    requires Ready(st, out)
    modifies st.core, st.zparts, out, out.mem
    ensures Ready(st, out) && (out.mem == old(out.mem) || fresh(out.mem))
    ensures fresh(st.core - old(st.core)) && fresh(st.zparts - old(st.zparts))
    ensures Follows(old(st.State()), old(st.Owners()), st.State(), st.Owners())
    ensures var o := A.Del(old(st.State()), key);
            st.State() == o.next && out.Contents() == old(out.Contents()) + Encode(o.r)
  {
    hide Follows, Store.Ok, Store.Deadlines, Store.Owners, Encode, Buffer.Contents, Buffer.Front, Ascii;
    var found := Remove(st, key);
    StillReady(st, out);
    SayInt(st, out, if found then 1 else 0);
  }

  /** zadd zset score name; score is what the number parser makes of its argument */
  method ExecZAdd(st: Store, key: Bytes, score: Option<Score>, name: Bytes, out: Buffer)
    requires Ready(st, out)
    modifies st.core, st.zparts, out, out.mem
    ensures Ready(st, out) && (out.mem == old(out.mem) || fresh(out.mem))
    ensures fresh(st.core - old(st.core)) && fresh(st.zparts - old(st.zparts))
    ensures Follows(old(st.State()), old(st.Owners()), st.State(), st.Owners())
    ensures var o := A.ZAdd(old(st.State()), key, score, name);
            st.State() == o.next && out.Contents() == old(out.Contents()) + Encode(o.r)
  {
    hide Follows, Store.Ok, Store.Deadlines, Store.Owners, Encode, Buffer.Contents, Buffer.Front, Ascii;
    KeysStay(st.State(), st.Owners(), st.State());
    if score == None {
      SayErr(st, out, ERR_BAD_ARG, "expect double");
      return;
    }
    var e := SeekSet(st, key);
    StillReady(st, out);
    if e == null {
      SayErr(st, out, ERR_BAD_TYPE, "expect zset");
      return;
    }
    ghost var s, owners, mid := old(st.State()), old(st.Owners()), st.State();
    AddScore(st, e, name, score.value, out);
    KeepsKeys(mid, st.State(), key);
    FollowsOn(s, owners, mid, st.Owners(), st.State());
  }

  /** zset_insert, and the reply that says whether the name is new. */
  method AddScore(st: Store, e: Entry, name: Bytes, score: Score, out: Buffer)
    requires Ready(st, out) && Holds(st, e) && e.isZSet
    modifies st.core, st.zparts, out, out.mem
    ensures Ready(st, out) && (out.mem == old(out.mem) || fresh(out.mem))
    ensures st.core == old(st.core) && fresh(st.zparts - old(st.zparts)) && st.Owners() == old(st.Owners())
    ensures var z := old(st.values)[e.key].scores;
            && st.State() == old(st.State()).(values := old(st.values)[e.key := A.SetV(z[name := score])])
            && out.Contents() == old(out.Contents()) + Encode(Int(if name in z then 0 else 1))
  {
    hide Store.Ok, Store.Deadlines, Store.Owners, Encode, Buffer.Contents, Buffer.Front, Ascii;
    var added := SetScore(st, e, name, score);
    StillReady(st, out);
    SayInt(st, out, if added then 1 else 0);
  }

  /** zrem zset name */
  method ExecZRem(st: Store, key: Bytes, name: Bytes, out: Buffer)
    requires Ready(st, out)
    modifies st.core, st.zparts, out, out.mem
    ensures Ready(st, out) && (out.mem == old(out.mem) || fresh(out.mem))
    ensures fresh(st.core - old(st.core)) && fresh(st.zparts - old(st.zparts))
    ensures Follows(old(st.State()), old(st.Owners()), st.State(), st.Owners())
    ensures var o := A.ZRem(old(st.State()), key, name);
            st.State() == o.next && out.Contents() == old(out.Contents()) + Encode(o.r)
  {
    hide Follows, Store.Ok, Store.Deadlines, Store.Owners, Encode, Buffer.Contents, Buffer.Front, Ascii;
    ghost var s, owners := st.State(), st.Owners();
    KeysStay(s, owners, s);
    var e := Seek(st, key);
    StillReady(st, out);
    if e == null {
      SayInt(st, out, 0);
      return;
    }
    if !e.isZSet {
      SayErr(st, out, ERR_BAD_TYPE, "expect zset");
      return;
    }
    var removed := RemoveName(st, e, name);
    KeepsKeys(s, st.State(), key);
    KeysStay(s, owners, st.State());
    StillReady(st, out);
    SayInt(st, out, if removed then 1 else 0);
  }

  /** zscore zset name */
  method ExecZScore(st: Store, key: Bytes, name: Bytes, out: Buffer)
    requires Ready(st, out)
    modifies st.core, st.zparts, out, out.mem
    ensures Ready(st, out) && (out.mem == old(out.mem) || fresh(out.mem))
    ensures fresh(st.core - old(st.core)) && fresh(st.zparts - old(st.zparts))
    ensures Follows(old(st.State()), old(st.Owners()), st.State(), st.Owners())
    ensures var o := A.ZScore(old(st.State()), key, name);
            st.State() == o.next && out.Contents() == old(out.Contents()) + Encode(o.r)
  {
    hide Follows, Store.Ok, Store.Deadlines, Store.Owners, Encode, Buffer.Contents, Buffer.Front, Ascii;
    KeysStay(st.State(), st.Owners(), st.State());
    var e := Seek(st, key);
    StillReady(st, out);
    if e == null {
      SayNil(st, out);
      return;
    }
    if !e.isZSet {
      SayErr(st, out, ERR_BAD_TYPE, "expect zset");
      return;
    }
    var r := ScoreOf(st, e, name);
    StillReady(st, out);
    if r == None {
      SayNil(st, out);
    } else {
      SayDbl(st, out, r.value);
    }
  }

  /** zrank zset name */
  method ExecZRank(st: Store, key: Bytes, name: Bytes, out: Buffer)
    requires Ready(st, out)
    modifies st.core, st.zparts, out, out.mem
    ensures Ready(st, out) && (out.mem == old(out.mem) || fresh(out.mem))
    ensures fresh(st.core - old(st.core)) && fresh(st.zparts - old(st.zparts))
    ensures Follows(old(st.State()), old(st.Owners()), st.State(), st.Owners())
    ensures var o := A.ZRank(old(st.State()), key, name);
            st.State() == o.next && out.Contents() == old(out.Contents()) + Encode(o.r)
  {
    hide Follows, Store.Ok, Store.Deadlines, Store.Owners, Encode, Buffer.Contents, Buffer.Front, Ascii, Below;
    KeysStay(st.State(), st.Owners(), st.State());
    var e := Seek(st, key);
    StillReady(st, out);
    if e == null {
      SayNil(st, out);
      return;
    }
    if !e.isZSet {
      SayErr(st, out, ERR_BAD_TYPE, "expect zset");
      return;
    }
    var r := RankOf(st, e, name);
    StillReady(st, out);
    if r == None {
      SayNil(st, out);
    } else {
      SayInt(st, out, r.value);
    }
  }

  /** pexpire key ttl; a negative ttl is stopped by an assertion */
  method ExecPExpire(st: Store, key: Bytes, ttl: Option<int>, now: nat, out: Buffer)
    requires Ready(st, out) && (ttl.Some? ==> ttl.value >= 0)
    modifies st.core, st.zparts, out, out.mem
    ensures Ready(st, out) && (out.mem == old(out.mem) || fresh(out.mem))
    ensures fresh(st.core - old(st.core)) && fresh(st.zparts - old(st.zparts))
    ensures Follows(old(st.State()), old(st.Owners()), st.State(), st.Owners())
    ensures var o := A.PExpire(old(st.State()), key, ttl, now);
            st.State() == o.next && out.Contents() == old(out.Contents()) + Encode(o.r)
  {
    hide Follows, Store.Ok, Store.Deadlines, Store.Owners, Encode, Buffer.Contents, Buffer.Front, Ascii;
    ghost var s, owners := st.State(), st.Owners();
    KeysStay(s, owners, s);
    if ttl == None {
      SayErr(st, out, ERR_BAD_ARG, "expect int64");
      return;
    }
    var e := Seek(st, key);
    StillReady(st, out);
    if e == null {
      SayInt(st, out, 0);
      return;
    }
    SetDeadline(st, e, now + ttl.value);
    KeysStay(s, owners, st.State());
    StillReady(st, out);
    SayInt(st, out, 1);
  }

  /** persist key */
  method ExecPersist(st: Store, key: Bytes, out: Buffer)
    requires Ready(st, out)
    modifies st.core, st.zparts, out, out.mem
    ensures Ready(st, out) && (out.mem == old(out.mem) || fresh(out.mem))
    ensures fresh(st.core - old(st.core)) && fresh(st.zparts - old(st.zparts))
    ensures Follows(old(st.State()), old(st.Owners()), st.State(), st.Owners())
    ensures var o := A.Persist(old(st.State()), key);
            st.State() == o.next && out.Contents() == old(out.Contents()) + Encode(o.r)
  {
    hide Follows, Store.Ok, Store.Deadlines, Store.Owners, Encode, Buffer.Contents, Buffer.Front, Ascii;
    ghost var s, owners := st.State(), st.Owners();
    KeysStay(s, owners, s);
    var e := Seek(st, key);
    StillReady(st, out);
    NoKeyNoDeadline(st, key);
    var timed := false;
    if e != null {
      var d := GetDeadline(st, e);
      timed := d.Some?;
    }
    if !timed {
      SayInt(st, out, 0);
      return;
    }
    ClearDeadline(st, e);
    KeysStay(s, owners, st.State());
    StillReady(st, out);
    SayInt(st, out, 1);
  }

  /** Only keys of the store have deadlines. */
  lemma NoKeyNoDeadline(st: Store, key: Bytes)
    requires st.Ok()
    ensures key in st.State().deadlines ==> key in st.values
    ensures key !in st.State().deadlines ==> st.State().(deadlines := st.State().deadlines - {key}) == st.State()
  {
    hide Store.Ok, Store.Deadlines;
    st.DeadlineKeys();
    assert key !in st.State().deadlines ==> st.State().deadlines - {key} == st.State().deadlines;
  }

  /** pttl key */
  method ExecPTtl(st: Store, key: Bytes, now: nat, out: Buffer)
    requires Ready(st, out)
    modifies st.core, st.zparts, out, out.mem
    ensures Ready(st, out) && (out.mem == old(out.mem) || fresh(out.mem))
    ensures fresh(st.core - old(st.core)) && fresh(st.zparts - old(st.zparts))
    ensures Follows(old(st.State()), old(st.Owners()), st.State(), st.Owners())
    ensures var o := A.PTtl(old(st.State()), key, now);
            st.State() == o.next && out.Contents() == old(out.Contents()) + Encode(o.r)
  {
    hide Follows, Store.Ok, Store.Deadlines, Store.Owners, Encode, Buffer.Contents, Buffer.Front, Ascii;
    KeysStay(st.State(), st.Owners(), st.State());
    var e := Seek(st, key);
    StillReady(st, out);
    if e == null {
      SayInt(st, out, -2);
      return;
    }
    var d := GetDeadline(st, e);
    if d == None {
      SayInt(st, out, -1);
      return;
    }
    SayInt(st, out, if d.value > now then d.value - now else 0);
  }

  method SayNothing(st: Store, out: Buffer)
    requires Ready(st, out)
    modifies out, out.mem
    ensures Ready(st, out) && (out.mem == old(out.mem) || fresh(out.mem))
    ensures st.State() == old(st.State()) && st.Owners() == old(st.Owners())
    ensures out.Contents() == old(out.Contents()) + Encode(Arr([]))
  {
    hide Store.Ok, Store.Deadlines, Buffer.Contents;
    ArrIsHeadAndItems([]);
    OutArr(out, 0);
  }

  lemma SetHeld(st: Store, e: Entry)
    requires st.Ok() && Holds(st, e) && e.isZSet
    ensures e.zset.Ok() && e.zset.Repr <= st.zparts && st.values[e.key] == A.SetV(e.zset.scores)
  {
    hide Store.Ok, Store.Valid, ZSet.Ok, ZSet.Valid;
    st.OkIsValid();
    st.ValueAt(e);
    e.zset.OkIsValid();
  }

  /** The window of an entry's sorted set. */
  method SayWindow(st: Store, e: Entry, p: Pair, offset: int, limit: int, out: Buffer)
    requires Ready(st, out) && Holds(st, e) && e.isZSet && limit > 0
    modifies out, out.mem
    ensures Ready(st, out) && (out.mem == old(out.mem) || fresh(out.mem))
    ensures st.State() == old(st.State()) && st.Owners() == old(st.Owners())
    ensures out.Contents() == old(out.Contents()) +
              Encode(Arr(A.Items(A.Window(old(st.values)[e.key].scores, p, offset, limit))))
  {
    hide Store.Ok, Store.Deadlines, ZSet.Ok, Buffer.Contents, A.Items, A.Window, Encode;
    SetHeld(st, e);
    EmitWindow(e.zset, p, offset, limit, out);
  }

  /** zquery zset score name offset limit */
  method ExecZQuery(st: Store, key: Bytes, score: Option<Score>, name: Bytes, offset: Option<int>, limit: Option<int>,
                    out: Buffer)
    requires Ready(st, out)
    modifies st.core, st.zparts, out, out.mem
    ensures Ready(st, out) && (out.mem == old(out.mem) || fresh(out.mem))
    ensures fresh(st.core - old(st.core)) && fresh(st.zparts - old(st.zparts))
    ensures Follows(old(st.State()), old(st.Owners()), st.State(), st.Owners())
    ensures var o := A.ZQuery(old(st.State()), key, score, name, offset, limit);
            st.State() == o.next && out.Contents() == old(out.Contents()) + Encode(o.r)
  {
    hide Follows, Store.Ok, Store.Deadlines, Store.Owners, Encode, Buffer.Contents, Buffer.Front, Ascii, Below, Ordered,
         A.Items;
    KeysStay(st.State(), st.Owners(), st.State());
    if score == None {
      SayErr(st, out, ERR_BAD_ARG, "expect double");
      return;
    }
    if offset == None || limit == None {
      SayErr(st, out, ERR_BAD_ARG, "expect int");
      return;
    }
    var e := Seek(st, key);
    StillReady(st, out);
    if e == null {
      SayNothing(st, out);
      return;
    }
    if !e.isZSet {
      SayErr(st, out, ERR_BAD_TYPE, "expect zset");
      return;
    }
    if limit.value <= 0 {
      EmptyWindow(st.values[key].scores, P(score.value, name), offset.value, limit.value);
      SayNothing(st, out);
      return;
    }
    SayWindow(st, e, P(score.value, name), offset.value, limit.value, out);
  }

  lemma EmptyWindow(z: Scores, p: Pair, offset: int, limit: int)
    requires limit <= 0
    ensures A.Items(A.Window(z, p, offset, limit)) == []
  {
  }

  /** keys: the count of the index, then each key as it is visited. */
  method ExecKeys(st: Store, out: Buffer)
    requires Ready(st, out)
    modifies out, out.mem
    ensures Ready(st, out) && (out.mem == old(out.mem) || fresh(out.mem))
    ensures st.State() == old(st.State()) && st.Owners() == old(st.Owners())
    ensures exists r: Res ::
              A.ListsKeys(r, old(st.State()).values.Keys) && out.Contents() == old(out.Contents()) + Encode(r)
  {
    hide Follows, Store.Ok, Store.Deadlines, Store.Owners, Encode, EncodeAll, ArrHead, Buffer.Contents, Buffer.Front,
         A.KeyItems;
    ghost var was := out.Contents();
    var n, ks := AllKeys(st);
    SayHead(st, out, n);
    NoKeys(was + ArrHead(n));
    for i := 0 to |ks|
      invariant Ready(st, out) && (out.mem == old(out.mem) || fresh(out.mem))
      invariant st.State() == old(st.State()) && st.Owners() == old(st.Owners())
      invariant out.Contents() == was + ArrHead(n) + EncodeAll(A.KeyItems(ks[..i]))
    {
      SayStr(st, out, ks[i]);
      KeysAppend(was + ArrHead(n), ks, i);
    }
    assert ks[..|ks|] == ks;
    KeysDone(was, ks);
    assert A.ListsKeys(Arr(A.KeyItems(ks)), old(st.State()).values.Keys);
  }

  method SayHead(st: Store, out: Buffer, n: nat)
    requires Ready(st, out)
    modifies out, out.mem
    ensures Ready(st, out) && (out.mem == old(out.mem) || fresh(out.mem))
    ensures st.State() == old(st.State()) && st.Owners() == old(st.Owners())
    ensures out.Contents() == old(out.Contents()) + ArrHead(n)
  {
    hide Store.Ok, Store.Deadlines, Buffer.Contents, ArrHead;
    OutArr(out, n);
  }

  lemma NoKeys(was: Bytes)
    ensures was == was + EncodeAll(A.KeyItems([]))
  {
  }

  lemma KeysAppend(was: Bytes, ks: seq<Bytes>, i: nat)
    requires i < |ks|
    ensures was + EncodeAll(A.KeyItems(ks[..i])) + Encode(Str(ks[i])) == was + EncodeAll(A.KeyItems(ks[..i + 1]))
  {
    hide Encode;
    assert ks[..i + 1][..i] == ks[..i];
    EncodeAppend(A.KeyItems(ks[..i]), Str(ks[i]));
    Pieces(was, EncodeAll(A.KeyItems(ks[..i])), Encode(Str(ks[i])), [], []);
  }

  lemma KeysDone(was: Bytes, ks: seq<Bytes>)
    ensures was + ArrHead(|ks|) + EncodeAll(A.KeyItems(ks)) == was + Encode(Arr(A.KeyItems(ks)))
  {
    KeyCount(ks);
    ArrIsHeadAndItems(A.KeyItems(ks));
    Pieces(was, ArrHead(|ks|), EncodeAll(A.KeyItems(ks)), [], []);
  }

  lemma {:induction false} KeyCount(ks: seq<Bytes>)
    ensures |A.KeyItems(ks)| == |ks|
  {
    if ks != [] { KeyCount(ks[..|ks| - 1]); }
  }
}
