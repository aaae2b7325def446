/**
 * What the commands mean: the store as a map from keys to values with optional deadlines.
 */
module Abstract {
  import opened Names
  import opened Seqs
  import opened Bits
  import opened Requests
  import opened Responses
  import opened PairOrder

  datatype Value = StrV(s: Bytes) | SetV(scores: Scores)

  /** Deadlines pass unnoticed by the commands; only the timers act on them. */
  datatype Abs = Abs(values: map<Bytes, Value>, deadlines: map<Bytes, nat>)

  /** The number of pairs above which a sorted set is left to a worker to destroy. */
  const LARGE_ZSET_SIZE := 500

  /** The keys of such sets. */
  ghost function LargeKeys(values: map<Bytes, Value>): set<Bytes> {
    set k | k in values && values[k].SetV? && |values[k].scores| > LARGE_ZSET_SIZE
  }

  /** The library's number parsers: strtod without NaN, and strtoll. */
  datatype Library = Library(dbl: Bytes -> Option<Score>, num: Bytes -> Option<int>)

  datatype Outcome = Outcome(next: Abs, r: Res)

  ghost function BadType(s: Abs, msg: string): Outcome { Outcome(s, Err(ERR_BAD_TYPE, Ascii(msg))) }

  ghost function BadArg(s: Abs, msg: string): Outcome { Outcome(s, Err(ERR_BAD_ARG, Ascii(msg))) }

  ghost function Unknown(s: Abs, msg: string): Outcome { Outcome(s, Err(ERR_UNKNOWN, Ascii(msg))) }

  ghost function Get(s: Abs, key: Bytes): Outcome {
    if key !in s.values then Outcome(s, Nil)
    else if s.values[key].SetV? then BadType(s, "not a string value")
    else Outcome(s, Str(s.values[key].s))
  }

  /** An existing key keeps its deadline. */
  ghost function Set(s: Abs, key: Bytes, val: Bytes): Outcome {
    if key in s.values && s.values[key].SetV? then BadType(s, "a non-string value exists")
    else Outcome(s.(values := s.values[key := StrV(val)]), Nil)
  }

  ghost function Del(s: Abs, key: Bytes): Outcome {
    Outcome(Abs(s.values - {key}, s.deadlines - {key}), Int(if key in s.values then 1 else 0))
  }

  ghost function Number01(b: bool): Res { Int(if b then 1 else 0) }

  ghost function ZAdd(s: Abs, key: Bytes, score: Option<Score>, name: Bytes): Outcome {
    if score.None? then BadArg(s, "expect double")
    else if key !in s.values then Outcome(s.(values := s.values[key := SetV(map[name := score.value])]), Number01(true))
    else if s.values[key].StrV? then BadType(s, "expect zset")
    else
      var z := s.values[key].scores;
      Outcome(s.(values := s.values[key := SetV(z[name := score.value])]), Number01(name !in z))
  }

  /** A set that becomes empty stays in the store. */
  ghost function ZRem(s: Abs, key: Bytes, name: Bytes): Outcome {
    if key !in s.values then Outcome(s, Number01(false))
    else if s.values[key].StrV? then BadType(s, "expect zset")
    else
      var z := s.values[key].scores;
      Outcome(s.(values := s.values[key := SetV(z - {name})]), Number01(name in z))
  }

  ghost function ZScore(s: Abs, key: Bytes, name: Bytes): Outcome {
    if key !in s.values then Outcome(s, Nil)
    else if s.values[key].StrV? then BadType(s, "expect zset")
    else
      var z := s.values[key].scores;
      Outcome(s, if name in z then Dbl(ScoreBits(z[name])) else Nil)
  }

  /** The rank is the number of smaller (score, name) pairs. */
  ghost function ZRank(s: Abs, key: Bytes, name: Bytes): Outcome {
    if key !in s.values then Outcome(s, Nil)
    else if s.values[key].StrV? then BadType(s, "expect zset")
    else
      var z := s.values[key].scores;
      Outcome(s, if name in z then Int(Below(z, P(z[name], name))) else Nil)
  }

  /** The two items that a pair takes in a response. */
  function PairItems(p: Pair): seq<Res> { [Str(p.name), Dbl(ScoreBits(p.score))] }

  function Items(s: seq<Pair>): seq<Res> {
    if s == [] then [] else Items(s[..|s| - 1]) + PairItems(s[|s| - 1])
  }

  /** Half of limit, rounded up: limit counts items, a pair is two. */
  function PairLimit(limit: int): nat { if limit <= 0 then 0 else (limit + 1) / 2 }

  /** At most n elements of s from position q on; none when q is not a position of s. */
  ghost function Slice(s: seq<Pair>, q: int, n: nat): seq<Pair> {
    if 0 <= q < |s| then s[q..if q + n <= |s| then q + n else |s|] else []
  }

  /** From the first pair not less than p, moved by offset; nothing when there is no such pair. */
  ghost function Window(z: Scores, p: Pair, offset: int, limit: int): seq<Pair> {
    if Below(z, p) == |z| then [] else Slice(Ordered(z), Below(z, p) + offset, PairLimit(limit))
  }

  ghost function ZQuery(s: Abs, key: Bytes, score: Option<Score>, name: Bytes, offset: Option<int>,
                        limit: Option<int>): Outcome {
    if score.None? then BadArg(s, "expect double")
    else if offset.None? || limit.None? then BadArg(s, "expect int")
    else if key !in s.values then Outcome(s, Arr([]))
    else if s.values[key].StrV? then BadType(s, "expect zset")
    else Outcome(s, Arr(Items(Window(s.values[key].scores, P(score.value, name), offset.value, limit.value))))
  }

  /** The deadline is set from a time to live that is not negative. */
  ghost function PExpire(s: Abs, key: Bytes, ttl: Option<int>, now: nat): Outcome
    requires ttl.Some? ==> ttl.value >= 0
  {
    if ttl.None? then BadArg(s, "expect int64")
    else if key !in s.values then Outcome(s, Number01(false))
    else Outcome(s.(deadlines := s.deadlines[key := now + ttl.value]), Number01(true))
  }

  ghost function Persist(s: Abs, key: Bytes): Outcome {
    Outcome(s.(deadlines := s.deadlines - {key}), Number01(key in s.values && key in s.deadlines))
  }

  ghost function PTtl(s: Abs, key: Bytes, now: nat): Outcome {
    Outcome(s, Int(if key !in s.values then -2 else if key !in s.deadlines then -1
                   else if s.deadlines[key] > now then s.deadlines[key] - now else 0))
  }

  // ----- the command table -----

  type CmdEntry = (string, nat)

  /** Names and arities, the name itself counted. */
  const CMD_TABLE: seq<CmdEntry> := [
    ("get", 2), ("set", 3), ("del", 2), ("keys", 1), ("zadd", 4), ("zrem", 3), ("zscore", 3), ("zrank", 3),
        ("zquery", 6),
    ("pexpire", 3), ("persist", 2), ("pttl", 2)]

  /** A command that the assertion in exec_pexpire stops: a negative time to live. */
  ghost predicate Aborts(cmd: Command, lib: Library) {
    |cmd| == 3 && cmd[0] == Ascii("pexpire") && lib.num(cmd[2]).Some? && lib.num(cmd[2]).value < 0
  }

  /** The keys in any order, each once. */
  ghost predicate ListsKeys(r: Res, keys: set<Bytes>) {
    exists ks: seq<Bytes> :: NoDup(ks) && Elems(ks) == keys && r == Arr(KeyItems(ks))
  }

  function KeyItems(ks: seq<Bytes>): seq<Res> {
    if ks == [] then [] else KeyItems(ks[..|ks| - 1]) + [Str(ks[|ks| - 1])]
  }

  /** The position of a command in the table, or -1. */
  function CmdIndex(name: Bytes, i: nat): (r: int)
    requires i <= |CMD_TABLE|
    ensures r == -1 || (i <= r < |CMD_TABLE| && Ascii(CMD_TABLE[r].0) == name)
    ensures forall j | i <= j < (if r == -1 then |CMD_TABLE| else r) :: Ascii(CMD_TABLE[j].0) != name
    decreases |CMD_TABLE| - i
  {
    if i == |CMD_TABLE| then -1 else if Ascii(CMD_TABLE[i].0) == name then i else CmdIndex(name, i + 1)
  }

  /** The reply to a command, and the store after it. */
  ghost predicate Answers(s: Abs, cmd: Command, now: nat, lib: Library, s': Abs, r: Res)
    requires !Aborts(cmd, lib)
  {
    if cmd == [] || CmdIndex(cmd[0], 0) == -1 then Outcome(s', r) == Unknown(s, "unknown command.")
    else
      var i := CmdIndex(cmd[0], 0);
      if |cmd| != CMD_TABLE[i].1 then Outcome(s', r) == Unknown(s, "wrong number of arguments.")
      else if i == 3 then s' == s && ListsKeys(r, s.values.Keys)
      else Outcome(s', r) == Handle(s, cmd, now, lib)
  }

  /** The commands with a single possible reply. */
  ghost function Handle(s: Abs, cmd: Command, now: nat, lib: Library): Outcome
    requires !Aborts(cmd, lib) && cmd != [] && CmdIndex(cmd[0], 0) != -1 && |cmd| == CMD_TABLE[CmdIndex(cmd[0], 0)].1
  {
    var i := CmdIndex(cmd[0], 0);
    if i == 0 then Get(s, cmd[1])
    else if i == 1 then Set(s, cmd[1], cmd[2])
    else if i == 2 then Del(s, cmd[1])
    else if i == 3 then Outcome(s, Nil)
    else if i == 4 then ZAdd(s, cmd[1], lib.dbl(cmd[2]), cmd[3])
    else if i == 5 then ZRem(s, cmd[1], cmd[2])
    else if i == 6 then ZScore(s, cmd[1], cmd[2])
    else if i == 7 then ZRank(s, cmd[1], cmd[2])
    else if i == 8 then ZQuery(s, cmd[1], lib.dbl(cmd[2]), cmd[3], lib.num(cmd[4]), lib.num(cmd[5]))
    else if i == 9 then PExpire(s, cmd[1], lib.num(cmd[2]), now)
    else if i == 10 then Persist(s, cmd[1])
    else PTtl(s, cmd[1], now)
  }

  // ----- expiry -----

  const MAX_WORKS := 2000

  /** The keys whose deadline has passed. */
  ghost function Expired(d: map<Bytes, nat>, now: nat): set<Bytes> { set k | k in d && d[k] < now }

  /** Of the deadlines d, those of gone have been dealt with: all past, none later than those kept. */
  ghost predicate EarliestGone(d: map<Bytes, nat>, gone: set<Bytes>, now: nat) {
    gone <= Expired(d, now) && forall g, k | g in gone && k in d && k !in gone :: d[g] <= d[k]
  }

  /** One expiry pass over the store: exactly so many keys go, the earliest. */
  ghost predicate ExpiryStep(s: Abs, s': Abs, now: nat, gone: set<Bytes>) {
    && EarliestGone(s.deadlines, gone, now) && s' == Abs(s.values - gone, s.deadlines - gone)
    && |gone| == (if |Expired(s.deadlines, now)| < MAX_WORKS then |Expired(s.deadlines, now)| else MAX_WORKS)
  }
}
