/**
 * What the commands promise each other, for the literal bytes of their names: what one command makes of a
 * key shows in the replies to the next.
 */
module Laws {
  import opened Names
  import opened Seqs
  import opened Bits
  import opened PairOrder
  import opened Requests
  import opened Responses
  import A = Abstract

  // ----- the names of the commands, in bytes -----

  const GET: Bytes := [103, 101, 116]
  const SET: Bytes := [115, 101, 116]
  const DEL: Bytes := [100, 101, 108]
  const KEYS: Bytes := [107, 101, 121, 115]
  const ZADD: Bytes := [122, 97, 100, 100]
  const ZREM: Bytes := [122, 114, 101, 109]
  const ZSCORE: Bytes := [122, 115, 99, 111, 114, 101]
  const ZRANK: Bytes := [122, 114, 97, 110, 107]
  const ZQUERY: Bytes := [122, 113, 117, 101, 114, 121]
  const PEXPIRE: Bytes := [112, 101, 120, 112, 105, 114, 101]
  const PERSIST: Bytes := [112, 101, 114, 115, 105, 115, 116]
  const PTTL: Bytes := [112, 116, 116, 108]

  const COMMANDS: seq<Bytes> := [GET, SET, DEL, KEYS, ZADD, ZREM, ZSCORE, ZRANK, ZQUERY, PEXPIRE, PERSIST, PTTL]

  /** How many strings make the command with this name, its name included; 0 when there is none. */
  function Arity(name: Bytes): nat {
    if name in [KEYS] then 1
    else if name in [GET, DEL, PERSIST, PTTL] then 2
    else if name in [SET, ZREM, ZSCORE, ZRANK, PEXPIRE] then 3
    else if name in [ZADD] then 4
    else if name in [ZQUERY] then 6
    else 0
  }

  lemma ShortNames()
    ensures Ascii("get") == GET && Ascii("set") == SET && Ascii("del") == DEL && Ascii("keys") == KEYS
    ensures Ascii("zadd") == ZADD && Ascii("zrem") == ZREM && Ascii("pttl") == PTTL
  {
  }

  lemma LongNames()
    ensures Ascii("zscore") == ZSCORE && Ascii("zrank") == ZRANK && Ascii("zquery") == ZQUERY
  {
  }

  lemma LongestNames()
    ensures Ascii("pexpire") == PEXPIRE && Ascii("persist") == PERSIST
  {
  }

  lemma TableNames()
    ensures |A.CMD_TABLE| == |COMMANDS| == 12
    ensures forall i | 0 <= i < 12 :: Ascii(A.CMD_TABLE[i].0) == COMMANDS[i]
    ensures forall i | 0 <= i < 12 :: A.CMD_TABLE[i].1 == Arity(COMMANDS[i]) > 0
    ensures forall i, j | 0 <= i < j < 12 :: COMMANDS[i] != COMMANDS[j]
  {
    hide Ascii;
    ShortNames();
    LongNames();
    LongestNames();
  }

  /** The table is searched by these names. */
  lemma IndexOf(i: nat)
    requires i < 12
    ensures A.CmdIndex(COMMANDS[i], 0) == i
  {
    TableNames();
  }

  lemma NoIndex(name: Bytes)
    requires name !in COMMANDS
    ensures A.CmdIndex(name, 0) == -1
  {
    hide Ascii;
    TableNames();
    assert forall i | 0 <= i < 12 :: COMMANDS[i] in COMMANDS;
  }

  // ----- which command does what -----

  /** A negative time to live stops the process, and nothing else does. */
  lemma AbortsMeans(cmd: Command, lib: A.Library)
    ensures A.Aborts(cmd, lib) <==>
            |cmd| == 3 && cmd[0] == PEXPIRE && lib.num(cmd[2]).Some? && lib.num(cmd[2]).value < 0
  {
    LongestNames();
  }

  /** A command with its right number of strings. */
  predicate Proper(cmd: Command) { cmd != [] && |cmd| == Arity(cmd[0]) }

  /** The arguments that each command takes, by its name. */
  ghost function Meant(s: A.Abs, cmd: Command, now: nat, lib: A.Library): A.Outcome
    requires Proper(cmd) && !A.Aborts(cmd, lib) && cmd[0] != KEYS
  {
    AbortsMeans(cmd, lib);
    if cmd[0] == GET then A.Get(s, cmd[1])
    else if cmd[0] == SET then A.Set(s, cmd[1], cmd[2])
    else if cmd[0] == DEL then A.Del(s, cmd[1])
    else if cmd[0] == ZADD then A.ZAdd(s, cmd[1], lib.dbl(cmd[2]), cmd[3])
    else if cmd[0] == ZREM then A.ZRem(s, cmd[1], cmd[2])
    else if cmd[0] == ZSCORE then A.ZScore(s, cmd[1], cmd[2])
    else if cmd[0] == ZRANK then A.ZRank(s, cmd[1], cmd[2])
    else if cmd[0] == ZQUERY then A.ZQuery(s, cmd[1], lib.dbl(cmd[2]), cmd[3], lib.num(cmd[4]), lib.num(cmd[5]))
    else if cmd[0] == PEXPIRE then A.PExpire(s, cmd[1], lib.num(cmd[2]), now)
    else if cmd[0] == PERSIST then A.Persist(s, cmd[1])
    else A.PTtl(s, cmd[1], now)
  }

  lemma ArityPositive(name: Bytes)
    ensures Arity(name) > 0 <==> name in COMMANDS
  {
  }

  lemma PlaceOfName(name: Bytes) returns (i: nat)
    requires name in COMMANDS
    ensures i < 12 && COMMANDS[i] == name && A.CmdIndex(name, 0) == i
    ensures A.CMD_TABLE[i].1 == Arity(name)
  {
    hide Ascii;
    i :| 0 <= i < |COMMANDS| && COMMANDS[i] == name;
    IndexOf(i);
    TableNames();
  }

  lemma AnswersMeant(s: A.Abs, cmd: Command, now: nat, lib: A.Library, s': A.Abs, r: Res)
    requires !A.Aborts(cmd, lib) && Proper(cmd) && cmd[0] != KEYS
    ensures A.Answers(s, cmd, now, lib, s', r) <==> A.Outcome(s', r) == Meant(s, cmd, now, lib)
  {
    hide Ascii, A.CmdIndex, A.Get, A.Set, A.Del, A.ZAdd, A.ZRem, A.ZScore, A.ZRank, A.ZQuery, A.PExpire, A.Persist,
         A.PTtl, Arity, A.Aborts;
    ArityPositive(cmd[0]);
    var i := PlaceOfName(cmd[0]);
  }

  /** Any other name, or a wrong number of strings, gets an error and changes nothing. */
  lemma Improper(s: A.Abs, cmd: Command, now: nat, lib: A.Library, s': A.Abs, r: Res)
    requires !Proper(cmd) && !A.Aborts(cmd, lib)
    ensures A.Answers(s, cmd, now, lib, s', r) <==>
            s' == s && r == Err(1, Ascii(if cmd == [] || cmd[0] !in COMMANDS then "unknown command."
                                         else "wrong number of arguments."))
  {
    hide Ascii, A.CmdIndex, Arity, A.Aborts, A.Handle;
    if cmd != [] {
      ArityPositive(cmd[0]);
      if cmd[0] in COMMANDS { var i := PlaceOfName(cmd[0]); } else { NoIndex(cmd[0]); }
    }
  }

  // ----- strings and keys -----

  /** The reply to get shows the value of a key. */
  ghost function GetReply(s: A.Abs, k: Bytes): Res {
    if k !in s.values then Nil
    else if s.values[k].StrV? then Str(s.values[k].s)
    else Err(3, Ascii("not a string value"))
  }

  lemma GetAnswer(s: A.Abs, k: Bytes, now: nat, lib: A.Library, s': A.Abs, r: Res)
    requires !A.Aborts([GET, k], lib)
    ensures A.Answers(s, [GET, k], now, lib, s', r) <==> s' == s && r == GetReply(s, k)
  {
    hide A.Answers, Ascii;
    AnswersMeant(s, [GET, k], now, lib, s', r);
  }

  /** What set stores get returns, unless the key holds a sorted set; the deadline stays. */
  lemma GetAfterSet(s: A.Abs, k: Bytes, v: Bytes, n1: nat, n2: nat, lib: A.Library, s1: A.Abs, r1: Res, s2: A.Abs,
                    r2: Res)
    requires !A.Aborts([SET, k, v], lib) && A.Answers(s, [SET, k, v], n1, lib, s1, r1)
    requires !A.Aborts([GET, k], lib) && A.Answers(s1, [GET, k], n2, lib, s2, r2)
    ensures if k in s.values && s.values[k].SetV? then r1 == Err(3, Ascii("a non-string value exists")) && s1 == s
            else r1 == Nil && r2 == Str(v)
    ensures s1.deadlines == s.deadlines
  {
    hide A.Answers, Ascii;
    AnswersMeant(s, [SET, k, v], n1, lib, s1, r1);
    GetAnswer(s1, k, n2, lib, s2, r2);
  }

  /** del answers whether the key was there, and then it is not, nor is its deadline. */
  lemma GoneAfterDel(s: A.Abs, k: Bytes, n1: nat, n2: nat, n3: nat, lib: A.Library, s1: A.Abs, r1: Res, s2: A.Abs,
                     r2: Res, s3: A.Abs, r3: Res)
    requires !A.Aborts([DEL, k], lib) && A.Answers(s, [DEL, k], n1, lib, s1, r1)
    requires !A.Aborts([GET, k], lib) && A.Answers(s1, [GET, k], n2, lib, s2, r2)
    requires !A.Aborts([DEL, k], lib) && A.Answers(s2, [DEL, k], n3, lib, s3, r3)
    ensures r1 == Int(if k in s.values then 1 else 0) && r2 == Nil && r3 == Int(0)
    ensures k !in s1.values && k !in s1.deadlines
  {
    hide A.Answers, Ascii;
    AnswersMeant(s, [DEL, k], n1, lib, s1, r1);
    GetAnswer(s1, k, n2, lib, s2, r2);
    AnswersMeant(s2, [DEL, k], n3, lib, s3, r3);
  }

  /** keys answers an array of the keys, each once. */
  lemma KeysAnswer(s: A.Abs, now: nat, lib: A.Library, s': A.Abs, r: Res)
    requires !A.Aborts([KEYS], lib) && A.Answers(s, [KEYS], now, lib, s', r)
    ensures s' == s && r.Arr? && |r.items| == |s.values|
    ensures forall k :: k in s.values <==> Str(k) in r.items
    ensures forall i, j | 0 <= i < j < |r.items| :: r.items[i] != r.items[j]
  {
    hide Ascii, A.CmdIndex, A.Handle, A.KeyItems;
    var i := PlaceOfName(KEYS);
    IndexOf(3);
    var ks: seq<Bytes> :| NoDup(ks) && Elems(ks) == s.values.Keys && r == Arr(A.KeyItems(ks));
    ItemsOfKeys(ks);
    NoDupCount(ks);
    assert |s.values| == |s.values.Keys|;
    forall k ensures k in s.values <==> Str(k) in r.items { KeyIsItem(ks, k); }
  }

  lemma KeyIsItem(ks: seq<Bytes>, k: Bytes)
    ensures k in Elems(ks) <==> Str(k) in A.KeyItems(ks)
  {
    ItemsOfKeys(ks);
    var items := A.KeyItems(ks);
    if k in Elems(ks) {
      var j :| 0 <= j < |ks| && ks[j] == k;
      assert items[j] == Str(k);
    }
    if Str(k) in items {
      var j :| 0 <= j < |ks| && items[j] == Str(k);
      assert ks[j] in Elems(ks);
    }
  }

  lemma {:induction false} ItemsOfKeys(ks: seq<Bytes>)
    ensures |A.KeyItems(ks)| == |ks| && forall i | 0 <= i < |ks| :: A.KeyItems(ks)[i] == Str(ks[i])
  {
    if ks != [] { ItemsOfKeys(ks[..|ks| - 1]); }
  }

  // ----- other keys -----

  /** Nothing about key k differs. */
  ghost predicate Alone(s: A.Abs, s': A.Abs, k: Bytes) {
    && (k in s'.values <==> k in s.values) && (k in s.values ==> s'.values[k] == s.values[k])
    && (k in s'.deadlines <==> k in s.deadlines) && (k in s.deadlines ==> s'.deadlines[k] == s.deadlines[k])
  }

  /** A command that does not write to key k: one on another key, or one that only reads. */
  predicate Spares(cmd: Command, k: Bytes) {
    |cmd| < 2 || cmd[1] != k || cmd[0] in [GET, ZSCORE, ZRANK, ZQUERY, PTTL]
  }

  lemma MeantSpares(s: A.Abs, cmd: Command, now: nat, lib: A.Library, k: Bytes)
    requires Proper(cmd) && !A.Aborts(cmd, lib) && cmd[0] != KEYS && Spares(cmd, k)
    ensures Alone(s, Meant(s, cmd, now, lib).next, k)
  {
    hide Ascii, Below, A.Window, A.Items;
  }

  lemma OtherKeysStay(s: A.Abs, cmd: Command, now: nat, lib: A.Library, s': A.Abs, r: Res, k: Bytes)
    requires !A.Aborts(cmd, lib) && A.Answers(s, cmd, now, lib, s', r) && Spares(cmd, k)
    ensures Alone(s, s', k)
  {
    hide A.Answers, Ascii, Meant, Spares;
    if !Proper(cmd) {
      Improper(s, cmd, now, lib, s', r);
    } else if cmd[0] == KEYS {
      assert cmd == [KEYS];
      KeysAnswer(s, now, lib, s', r);
    } else {
      AnswersMeant(s, cmd, now, lib, s', r);
      MeantSpares(s, cmd, now, lib, k);
    }
  }

  // ----- sorted sets -----

  /** The scores of a key; none when it holds no set. */
  ghost function ScoresOf(s: A.Abs, k: Bytes): Scores {
    if k in s.values && s.values[k].SetV? then s.values[k].scores else map[]
  }

  ghost predicate HoldsString(s: A.Abs, k: Bytes) { k in s.values && s.values[k].StrV? }

  lemma ZScoreAnswer(s: A.Abs, k: Bytes, n: Bytes, now: nat, lib: A.Library, s': A.Abs, r: Res)
    requires !A.Aborts([ZSCORE, k, n], lib) && !HoldsString(s, k)
    ensures A.Answers(s, [ZSCORE, k, n], now, lib, s', r) <==>
            s' == s && r == var z := ScoresOf(s, k); if n in z then Dbl(ScoreBits(z[n])) else Nil
  {
    hide A.Answers, Ascii;
    AnswersMeant(s, [ZSCORE, k, n], now, lib, s', r);
  }

  /**
   * The score that zadd gives a name zscore returns, and the other names keep theirs; zadd answers whether
   * the name is new.
   */
  lemma ZScoreAfterZAdd(s: A.Abs, k: Bytes, x: Bytes, n: Bytes, m: Bytes, n1: nat, n2: nat, lib: A.Library,
                        s1: A.Abs, r1: Res, s2: A.Abs, r2: Res)
    requires !A.Aborts([ZADD, k, x, n], lib) && A.Answers(s, [ZADD, k, x, n], n1, lib, s1, r1)
    requires !A.Aborts([ZSCORE, k, m], lib) && A.Answers(s1, [ZSCORE, k, m], n2, lib, s2, r2)
    requires !HoldsString(s, k) && lib.dbl(x).Some?
    ensures r1 == Int(if n in ScoresOf(s, k) then 0 else 1) && s1.deadlines == s.deadlines
    ensures r2 == if m == n then Dbl(ScoreBits(lib.dbl(x).value))
                  else if m in ScoresOf(s, k) then Dbl(ScoreBits(ScoresOf(s, k)[m])) else Nil
  {
    hide A.Answers, Ascii;
    AnswersMeant(s, [ZADD, k, x, n], n1, lib, s1, r1);
    ZScoreAnswer(s1, k, m, n2, lib, s2, r2);
  }

  /** zrem answers whether the name was there, and then it is not; the key stays, if only with an empty set. */
  lemma ZScoreAfterZRem(s: A.Abs, k: Bytes, n: Bytes, m: Bytes, n1: nat, n2: nat, lib: A.Library, s1: A.Abs, r1: Res,
                        s2: A.Abs, r2: Res)
    requires !A.Aborts([ZREM, k, n], lib) && A.Answers(s, [ZREM, k, n], n1, lib, s1, r1)
    requires !A.Aborts([ZSCORE, k, m], lib) && A.Answers(s1, [ZSCORE, k, m], n2, lib, s2, r2)
    requires !HoldsString(s, k)
    ensures r1 == Int(if n in ScoresOf(s, k) then 1 else 0)
    ensures s1.values.Keys == s.values.Keys && s1.deadlines == s.deadlines
    ensures r2 == if m != n && m in ScoresOf(s, k) then Dbl(ScoreBits(ScoresOf(s, k)[m])) else Nil
  {
    hide A.Answers, Ascii;
    AnswersMeant(s, [ZREM, k, n], n1, lib, s1, r1);
    ZScoreAnswer(s1, k, m, n2, lib, s2, r2);
  }

  /** Sorted-set commands refuse a string, and change nothing. */
  lemma WrongType(s: A.Abs, cmd: Command, now: nat, lib: A.Library, s': A.Abs, r: Res)
    requires !A.Aborts(cmd, lib) && A.Answers(s, cmd, now, lib, s', r) && Proper(cmd)
    requires cmd[0] in [ZADD, ZREM, ZSCORE, ZRANK, ZQUERY] && |cmd| >= 3 && HoldsString(s, cmd[1])
    requires cmd[0] in [ZADD, ZQUERY] ==> lib.dbl(cmd[2]).Some?
    requires cmd[0] == ZQUERY ==> |cmd| == 6 && lib.num(cmd[4]).Some? && lib.num(cmd[5]).Some?
    ensures s' == s && r == Err(3, Ascii("expect zset"))
  {
    hide A.Answers, Ascii, A.Window, Below;
    AnswersMeant(s, cmd, now, lib, s', r);
  }

  /** What is no number where one is expected is refused, and changes nothing. */
  lemma WrongNumber(s: A.Abs, cmd: Command, now: nat, lib: A.Library, s': A.Abs, r: Res)
    requires !A.Aborts(cmd, lib) && A.Answers(s, cmd, now, lib, s', r) && Proper(cmd) && |cmd| >= 3
    ensures cmd[0] in [ZADD, ZQUERY] && lib.dbl(cmd[2]).None? ==> s' == s && r == Err(4, Ascii("expect double"))
    ensures cmd[0] == ZQUERY && |cmd| == 6 && lib.dbl(cmd[2]).Some? ==>
              lib.num(cmd[4]).None? || lib.num(cmd[5]).None? ==> s' == s && r == Err(4, Ascii("expect int"))
    ensures cmd[0] == PEXPIRE && lib.num(cmd[2]).None? ==> s' == s && r == Err(4, Ascii("expect int64"))
  {
    hide A.Answers, Ascii, A.Window, Below;
    AnswersMeant(s, cmd, now, lib, s', r);
  }

  // ----- order in a sorted set -----

  /** How many pairs of z come before p, a lower score before a higher one. */
  ghost function RankIn(z: Scores, p: Pair): nat { |set n | n in z && Before(P(z[n], n), p)| }

  lemma BelowIsRank(z: Scores, p: Pair)
    ensures Below(z, p) == RankIn(z, p)
  {
    hide Less, Before;
    forall n | n in z ensures Less(P(z[n], n), p) <==> Before(P(z[n], n), p) { LessMeans(P(z[n], n), p); }
    assert NamesBelow(z, p) == set n | n in z && Before(P(z[n], n), p);
  }

  /** zrank answers the number of pairs that come before the name's own. */
  lemma ZRankAnswer(s: A.Abs, k: Bytes, n: Bytes, now: nat, lib: A.Library, s': A.Abs, r: Res)
    requires !A.Aborts([ZRANK, k, n], lib) && !HoldsString(s, k)
    ensures A.Answers(s, [ZRANK, k, n], now, lib, s', r) <==>
            s' == s && r == var z := ScoresOf(s, k); if n in z then Int(RankIn(z, P(z[n], n))) else Nil
  {
    hide A.Answers, Ascii, Below, RankIn;
    AnswersMeant(s, [ZRANK, k, n], now, lib, s', r);
    var z := ScoresOf(s, k);
    if n in z { BelowIsRank(z, P(z[n], n)); }
  }

  /** A lower score has a lower rank. */
  lemma LowerScoreLowerRank(z: Scores, a: Bytes, b: Bytes)
    requires a in z && b in z && z[a] < z[b]
    ensures RankIn(z, P(z[a], a)) < RankIn(z, P(z[b], b))
  {
    hide RankIn;
    BeforeHasLowerRank(z, P(z[a], a), P(z[b], b));
  }

  lemma SmallerSet<T>(u: set<T>, v: set<T>, x: T)
    requires u <= v && x in v && x !in u
    ensures |u| < |v|
  {
    assert v == u + (v - u) && x in v - u;
  }

  // ----- the window of a range query -----

  /** Pairs as items: a name and the bits of its score, in turn. */
  function Flat(w: seq<Pair>): seq<Res> {
    seq(2 * |w|, i requires 0 <= i < 2 * |w| =>
          if i % 2 == 0 then Str(w[i / 2].name) else Dbl(ScoreBits(w[i / 2].score)))
  }

  lemma {:induction false} ItemsAreFlat(w: seq<Pair>)
    ensures A.Items(w) == Flat(w)
  {
    if w != [] {
      var n := |w| - 1;
      ItemsAreFlat(w[..n]);
      assert Flat(w) == Flat(w[..n]) + [Str(w[n].name), Dbl(ScoreBits(w[n].score))];
    }
  }

  /**
   * The pairs of z from place start on, at most half of limit, rounded up: start is the number of pairs that
   * come before p, and offset more.  None when no pair is left at p, or start is no place of z.
   */
  ghost predicate IsWindow(z: Scores, p: Pair, offset: int, limit: int, w: seq<Pair>) {
    var start := RankIn(z, p) + offset;
    && (forall q <- w :: q.name in z && z[q.name] == q.score)
    && (forall i, j | 0 <= i < j < |w| :: Before(w[i], w[j]))
    && (forall i | 0 <= i < |w| :: RankIn(z, w[i]) == start + i)
    && |w| == if limit <= 0 || RankIn(z, p) == |z| || !(0 <= start < |z|) then 0
              else if (limit + 1) / 2 <= |z| - start then (limit + 1) / 2 else |z| - start
  }

  lemma WindowIsWindow(z: Scores, p: Pair, offset: int, limit: int)
    ensures IsWindow(z, p, offset, limit, A.Window(z, p, offset, limit))
  {
    hide Below, RankIn, Ordered, Less, Before, A.Window;
    var o, w, start := Ordered(z), A.Window(z, p, offset, limit), Below(z, p) + offset;
    OrderedLists(z);
    ListLength(o, z);
    BelowIsRank(z, p);
    WindowPlaces(z, p, offset, limit);
    forall i | 0 <= i < |w| ensures RankIn(z, w[i]) == start + i && w[i].name in z && z[w[i].name] == w[i].score {
      RankIsPosition(o, z, start + i);
      BelowIsRank(z, o[start + i]);
      assert o[start + i] in o;
    }
    forall i, j | 0 <= i < j < |w| ensures Before(w[i], w[j]) { LessMeans(o[start + i], o[start + j]); }
  }

  lemma WindowPlaces(z: Scores, p: Pair, offset: int, limit: int)
    ensures var o, w, start := Ordered(z), A.Window(z, p, offset, limit), Below(z, p) + offset;
            && |w| == (if limit <= 0 || Below(z, p) == |z| || !(0 <= start < |o|) then 0
                       else if (limit + 1) / 2 <= |o| - start then (limit + 1) / 2 else |o| - start)
            && forall i | 0 <= i < |w| :: 0 <= start + i < |o| && w[i] == o[start + i]
  {
    hide Below, Ordered;
  }

  /** zquery answers the window that its arguments name, and there is only one. */
  lemma ZQueryAnswer(s: A.Abs, k: Bytes, x: Bytes, n: Bytes, o: Bytes, l: Bytes, now: nat, lib: A.Library, s': A.Abs,
                     r: Res) returns (w: seq<Pair>)
    requires !A.Aborts([ZQUERY, k, x, n, o, l], lib) && A.Answers(s, [ZQUERY, k, x, n, o, l], now, lib, s', r)
    requires lib.dbl(x).Some? && lib.num(o).Some? && lib.num(l).Some? && !HoldsString(s, k)
    ensures s' == s && r == Arr(Flat(w))
    ensures IsWindow(ScoresOf(s, k), P(lib.dbl(x).value, n), lib.num(o).value, lib.num(l).value, w)
  {
    hide A.Answers, Ascii, A.Window, A.Items, Flat, IsWindow;
    AnswersMeant(s, [ZQUERY, k, x, n, o, l], now, lib, s', r);
    var z, p := ScoresOf(s, k), P(lib.dbl(x).value, n);
    w := A.Window(z, p, lib.num(o).value, lib.num(l).value);
    ItemsAreFlat(w);
    WindowIsWindow(z, p, lib.num(o).value, lib.num(l).value);
    if k !in s.values { NoWindow(p, lib.num(o).value, lib.num(l).value); }
  }

  lemma NoWindow(p: Pair, offset: int, limit: int)
    ensures A.Window(map[], p, offset, limit) == [] && A.Items([]) == []
  {
    hide Less;
    assert NamesBelow(map[], p) == {};
  }

  lemma WindowUnique(z: Scores, p: Pair, offset: int, limit: int, w: seq<Pair>, v: seq<Pair>)
    requires IsWindow(z, p, offset, limit, w) && IsWindow(z, p, offset, limit, v)
    ensures w == v
  {
    hide RankIn, Before;
    forall i | 0 <= i < |w| ensures w[i] == v[i] {
      assert w[i] in w && v[i] in v;
      SameRank(z, w[i], v[i]);
    }
  }

  lemma SameRank(z: Scores, p: Pair, q: Pair)
    requires p.name in z && z[p.name] == p.score && q.name in z && z[q.name] == q.score
    requires RankIn(z, p) == RankIn(z, q)
    ensures p == q
  {
    hide RankIn, Below, Less, Ordered;
    OrderedLists(z);
    var o := Ordered(z);
    var i :| 0 <= i < |o| && o[i] == p;
    var j :| 0 <= j < |o| && o[j] == q;
    RankIsPosition(o, z, i);
    RankIsPosition(o, z, j);
    BelowIsRank(z, p);
    BelowIsRank(z, q);
  }

  /** The scores of a window never decrease; none is below the sought one when the offset is not negative. */
  lemma WindowScores(z: Scores, p: Pair, offset: int, limit: int, w: seq<Pair>)
    requires IsWindow(z, p, offset, limit, w)
    ensures forall i, j | 0 <= i < j < |w| :: w[i].score <= w[j].score
    ensures offset >= 0 ==> forall i | 0 <= i < |w| :: p.score <= w[i].score && !Before(w[i], p)
  {
    hide RankIn, LexBefore;
    if offset >= 0 {
      forall i | 0 <= i < |w| ensures !Before(w[i], p) {
        assert w[i] in w;
        if Before(w[i], p) { BeforeHasLowerRank(z, w[i], p); }
      }
    }
  }

  lemma BeforeHasLowerRank(z: Scores, p: Pair, q: Pair)
    requires p.name in z && z[p.name] == p.score && Before(p, q)
    ensures RankIn(z, p) < RankIn(z, q)
  {
    hide LexBefore, Before, Less;
    var u, v := (set n | n in z && Before(P(z[n], n), p)), (set n | n in z && Before(P(z[n], n), q));
    LessMeans(p, p);
    CmpIsOrder(p, p, p);
    NotLessItself(p);
    forall n | n in u ensures n in v {
      var x := P(z[n], n);
      LessMeans(x, p);
      LessMeans(p, q);
      LessMeans(x, q);
      CmpIsOrder(x, p, q);
    }
    SmallerSet(u, v, p.name);
  }

  lemma NotLessItself(p: Pair)
    ensures !Less(p, p)
  {
    CmpIsOrder(p, p, p);
  }
}
