/**
 * How long a key lives and what becomes of its entry: deadlines, in milliseconds and replies, and the
 * way of an entry to the workers or to its end.
 */
module Lifetimes {
  import opened Names
  import opened Requests
  import opened Responses
  import opened Entries
  import opened Ledgers
  import opened Worlds
  import opened Laws
  import A = Abstract

  // ----- deadlines -----

  /** pexpire answers whether the key is there, and only then sets a deadline: its time to live from now. */
  lemma PExpireAnswer(s: A.Abs, k: Bytes, t: Bytes, now: nat, lib: A.Library, s': A.Abs, r: Res)
    requires !A.Aborts([PEXPIRE, k, t], lib) && A.Answers(s, [PEXPIRE, k, t], now, lib, s', r) && lib.num(t).Some?
    ensures lib.num(t).value >= 0 && s'.values == s.values && r == Int(if k in s.values then 1 else 0)
    ensures k in s.values ==> k in s'.deadlines && s'.deadlines[k] == now + lib.num(t).value
    ensures k !in s.values ==> s' == s
  {
    hide A.Answers, Ascii;
    AbortsMeans([PEXPIRE, k, t], lib);
    AnswersMeant(s, [PEXPIRE, k, t], now, lib, s', r);
  }

  /** pttl answers -2 without the key, -1 without a deadline, and else the time that is left. */
  lemma PTtlAnswer(s: A.Abs, k: Bytes, now: nat, lib: A.Library, s': A.Abs, r: Res)
    requires !A.Aborts([PTTL, k], lib)
    ensures A.Answers(s, [PTTL, k], now, lib, s', r) <==>
            s' == s && r == Int(if k !in s.values then -2 else if k !in s.deadlines then -1
                                else if s.deadlines[k] <= now then 0 else s.deadlines[k] - now)
  {
    hide A.Answers, Ascii;
    AnswersMeant(s, [PTTL, k], now, lib, s', r);
  }

  /** The key's time has run out: the next timers take it. */
  ghost predicate Overdue(s: A.Abs, k: Bytes, now: nat) { k in A.Expired(s.deadlines, now) }

  /**
   * A time to live of t counts down while nothing else happens to the key: at a later time pttl answers what is
   * left of it, and the key is overdue exactly when more than t has passed.
   */
  lemma TtlCountsDown(s: A.Abs, k: Bytes, t: Bytes, n: nat, lib: A.Library, s1: A.Abs, s2: A.Abs, n2: nat, s3: A.Abs,
                      r: Res)
    requires !A.Aborts([PEXPIRE, k, t], lib) && A.Answers(s, [PEXPIRE, k, t], n, lib, s1, Int(1))
    requires lib.num(t).Some? && Alone(s1, s2, k) && n <= n2
    requires !A.Aborts([PTTL, k], lib) && A.Answers(s2, [PTTL, k], n2, lib, s3, r)
    ensures var ttl := lib.num(t).value;
            && ttl >= 0 && r == Int(if n2 - n < ttl then ttl - (n2 - n) else 0)
            && (Overdue(s2, k, n2) <==> n2 > n + ttl)
  {
    hide A.Answers, A.Aborts;
    PExpireAnswer(s, k, t, n, lib, s1, Int(1));
    PTtlAnswer(s2, k, n2, lib, s3, r);
  }

  /** persist answers whether it took a deadline away; afterwards pttl answers -1, and the key is never overdue. */
  lemma PersistStopsTheClock(s: A.Abs, k: Bytes, n: nat, lib: A.Library, s1: A.Abs, r1: Res, s2: A.Abs, n2: nat,
                             s3: A.Abs, r: Res)
    requires !A.Aborts([PERSIST, k], lib) && A.Answers(s, [PERSIST, k], n, lib, s1, r1) && Alone(s1, s2, k)
    requires !A.Aborts([PTTL, k], lib) && A.Answers(s2, [PTTL, k], n2, lib, s3, r)
    ensures r1 == Int(if k in s.values && k in s.deadlines then 1 else 0) && s1.values == s.values
    ensures r == Int(if k in s.values then -1 else -2) && forall now: nat :: !Overdue(s2, k, now)
  {
    hide A.Answers, A.Aborts;
    AnswersMeant(s, [PERSIST, k], n, lib, s1, r1);
    PTtlAnswer(s2, k, n2, lib, s3, r);
  }

  /**
   * One pass of the timers takes overdue keys only, all of them if there are at most 2000, and else 2000
   * of the earliest; nothing else changes.
   */
  lemma ExpiryTakes(s: A.Abs, s': A.Abs, now: nat, gone: set<Bytes>)
    requires A.ExpiryStep(s, s', now, gone)
    ensures forall k :: k in gone ==> k in s.deadlines && s.deadlines[k] < now && k !in s'.values && k !in s'.deadlines
    ensures forall k :: k !in gone ==> Alone(s, s', k)
    ensures |A.Expired(s.deadlines, now)| <= 2000 ==> forall k :: k in gone <==> Overdue(s, k, now)
    ensures |A.Expired(s.deadlines, now)| > 2000 ==> |gone| == 2000
    ensures forall g, k | g in gone && k in s'.deadlines :: s.deadlines[g] <= s.deadlines[k]
  {
    var all := A.Expired(s.deadlines, now);
    if |all| <= 2000 { WholeSet(gone, all); }
  }

  lemma WholeSet<T>(a: set<T>, b: set<T>)
    requires a <= b && |a| == |b|
    ensures a == b
  {
    assert b == a + (b - a);
  }

  // ----- what leaves a key alone -----

  lemma AloneOn(s: A.Abs, s1: A.Abs, s2: A.Abs, k: Bytes)
    requires Alone(s, s1, k) && Alone(s1, s2, k)
    ensures Alone(s, s2, k)
  {
  }

  /** A run of commands that spare the key. */
  lemma {:induction false} RunSpares(states: seq<A.Abs>, cmds: seq<Command>, clock: nat -> nat, lib: A.Library,
                                     rs: seq<Res>, k: Bytes, i: nat)
    requires Run(states, cmds, clock, lib, rs) && i <= |cmds| && forall c <- cmds :: Spares(c, k)
    ensures Alone(states[0], states[i], k)
  {
    hide A.Answers, A.Aborts, Spares;
    if i > 0 {
      RunSpares(states, cmds, clock, lib, rs, k, i - 1);
      assert A.Answers(states[i - 1], cmds[i - 1], clock(i - 1), lib, states[i - 1 + 1], rs[i - 1]);
      assert cmds[i - 1] in cmds;
      OtherKeysStay(states[i - 1], cmds[i - 1], clock(i - 1), lib, states[i], rs[i - 1], k);
      AloneOn(states[0], states[i - 1], states[i], k);
    }
  }

  /** No command that an event brings writes to the key, and the key is not overdue when the timers look. */
  ghost predicate EventSpares(w: World, ev: Event, k: Bytes) {
    match ev
    case Accept(_, _) => true
    case Polled(fd, _, _, _, _, _, input, _, _, _) =>
      fd in w.peers && input.Chunk? ==>
        var p := w.peers[fd];
        forall c <- Unanswered(p.(received := p.received + input.data)) :: Spares(c, k)
    case Timers(now) => !Overdue(w.s, k, now)
    case WorkerTakes => true
    case WorkerFinishes => true
  }

  lemma EventLeavesAlone(w: World, w': World, ev: Event, lib: A.Library, k: Bytes)
    requires EventStep(w, w', ev, lib) && EventSpares(w, ev, k)
    ensures Alone(w.s, w'.s, k)
  {
    hide A.Answers, Spares, Handed, Departed, Unanswered, Wrote, WriteFails, TimedOut, A.ExpiryStep, Run;
    if ev.Polled? && Reported(w, ev) {
      var p', closing :| PolledStep(w, w', ev, lib, p', closing);
      if Readable(w.peers[ev.fd], ev) { ReadLeavesAlone(w, w', ev, lib, p', closing, k); }
    } else if ev.Timers? {
      var m, gone :| TimersStep(w, w', ev.now, m, gone);
      ExpiryTakes(w.s, w'.s, ev.now, gone);
      NotTaken(w.s, w'.s, ev.now, gone, k);
    }
  }

  lemma NotTaken(s: A.Abs, s': A.Abs, now: nat, gone: set<Bytes>, k: Bytes)
    requires A.ExpiryStep(s, s', now, gone) && !Overdue(s, k, now)
    ensures k !in gone
  {
  }

  lemma ReadLeavesAlone(w: World, w': World, ev: Event, lib: A.Library, p': Peer, closing: bool, k: Bytes)
    requires ev.Polled? && ev.fd in w.peers && EventSpares(w, ev, k)
    requires Reads(w.peers[ev.fd], p', closing, StockOf(w), StockOf(w'), ev.input, ev.clock, ev.kernel, lib)
    ensures Alone(w.s, w'.s, k)
  {
    hide Spares, Handed, Unanswered, Wrote, WriteFails, Run;
    if ev.input.Chunk? {
      var p := w.peers[ev.fd];
      var q := p.(received := p.received + ev.input.data);
      var rs :| Answered(q, StockOf(w), StockOf(w'), ev.clock, lib, rs);
      var states :| Run(states, Unanswered(q), ev.clock, lib, rs) && states[0] == w.s &&
                    states[|states| - 1] == w'.s;
      RunSpares(states, Unanswered(q), ev.clock, lib, rs, k, |states| - 1);
    }
  }

  /**
   * Over every history: a key lives on with its value and its deadline while no command writes to it and it is
   * not overdue when the timers look.
   */
  lemma {:induction false} HistoryLeavesAlone(ws: seq<World>, events: seq<Event>, lib: A.Library, k: Bytes, i: nat,
                                              j: nat)
    requires History(ws, events, lib) && i <= j < |ws|
    requires forall e | i <= e < j :: EventSpares(ws[e], events[e], k)
    ensures Alone(ws[i].s, ws[j].s, k)
  {
    hide EventStep, EventSpares, Alone;
    if i < j {
      HistoryLeavesAlone(ws, events, lib, k, i, j - 1);
      assert EventStep(ws[j - 1], ws[j - 1 + 1], events[j - 1], lib);
      EventLeavesAlone(ws[j - 1], ws[j], events[j - 1], lib, k);
      AloneOn(ws[i].s, ws[j - 1].s, ws[j].s, k);
    } else {
      AloneItself(ws[i].s, k);
    }
  }

  lemma AloneItself(s: A.Abs, k: Bytes)
    ensures Alone(s, s, k)
  {
  }

  // ----- what becomes of an entry -----

  /** A sorted set of more than 500 pairs. */
  ghost predicate IsLarge(s: A.Abs, k: Bytes) {
    k in s.values && s.values[k].SetV? && |s.values[k].scores| > 500
  }

  /** What del makes of the entry of its key: a large set waits for a worker, anything else is freed at once. */
  lemma DelHandsOver(s: A.Abs, o: Ledger, k: Bytes, now: nat, lib: A.Library, s': A.Abs, o': Ledger, r: Res, e: Entry)
    requires !A.Aborts([DEL, k], lib) && A.Answers(s, [DEL, k], now, lib, s', r)
    requires Follows(s, o, s', o') && Accounted(o, s.values.Keys) && e in o.stored && e.key == k
    ensures o'.stored == o.stored - {e} && o'.running == o.running
    ensures IsLarge(s, k) ==> o'.queue == o.queue + [e] && o'.freed == o.freed
    ensures !IsLarge(s, k) ==> o'.queue == o.queue && o'.freed == o.freed + [e]
  {
    hide A.Answers, Accounted, A.LargeKeys;
    AnswersMeant(s, [DEL, k], now, lib, s', r);
    StoredKey(o, s.values.Keys, e);
    assert s'.values.Keys == s.values.Keys - {k};
    var large := A.LargeKeys(s.values);
    assert Departed(o, o', {k}, large);
    LargeMeans(s, k);
    assert Leaving(o, {k}) == {e} && Leaving(o, {}) == {};
    assert {k} * large == (if k in large then {k} else {}) && {k} - large == (if k in large then {} else {k});
    OneAppended(o.queue, o'.queue, if k in large then {e} else {}, e);
    OneAppended(o.freed, o'.freed, if k in large then {} else {e}, e);
  }

  lemma StoredKey(o: Ledger, keys: set<Bytes>, e: Entry)
    requires Accounted(o, keys) && e in o.stored
    ensures e.key in keys && forall f <- o.stored :: f.key == e.key ==> f == e
  {
  }

  lemma LargeMeans(s: A.Abs, k: Bytes)
    ensures k in A.LargeKeys(s.values) <==> IsLarge(s, k)
  {
  }

  /** What the timers make of the entry of a key that they take. */
  lemma ExpiryHandsOver(w: World, w': World, now: nat, lib: A.Library, e: Entry)
    requires EventStep(w, w', Timers(now), lib) && Accounted(w.owners, w.s.values.Keys)
    requires e in w.owners.stored && e.key !in w'.s.values
    ensures e !in w'.owners.stored
    ensures IsLarge(w.s, e.key) ==> e in w'.owners.queue[|w.owners.queue|..]
    ensures !IsLarge(w.s, e.key) ==> e in w'.owners.freed[|w.owners.freed|..]
  {
    hide Accounted, A.LargeKeys, TimedOut, A.ExpiryStep;
    var m, gone :| TimersStep(w, w', now, m, gone);
    ExpiryTakes(w.s, w'.s, now, gone);
    StoredKey(w.owners, w.s.values.Keys, e);
    LargeMeans(w.s, e.key);
    var large := A.LargeKeys(w.s.values);
    assert e.key in gone;
    assert IsLarge(w.s, e.key) ==> e in Leaving(w.owners, gone * large);
    assert !IsLarge(w.s, e.key) ==> e in Leaving(w.owners, gone - large);
  }

  /** In a run of commands, a del of a large set puts its key among those of the queue. */
  lemma {:induction false} DelIsQueued(states: seq<A.Abs>, cmds: seq<Command>, clock: nat -> nat, lib: A.Library,
                                       rs: seq<Res>, i: nat, j: nat, k: Bytes)
    requires Run(states, cmds, clock, lib, rs) && i < j <= |cmds| && cmds[i] == [DEL, k] && k in states[i].values
    ensures IsLarge(states[i], k) ==> k in Queued(states[..j + 1])
    ensures !IsLarge(states[i], k) ==> k in Freed(states[..j + 1])
  {
    hide A.Answers, A.Aborts, A.LargeKeys, QueuedBy, FreedBy, OnlyKey, IsLarge;
    var now := states[..j + 1];
    assert now[..|now| - 1] == states[..j] && now[|now| - 2] == states[j - 1] && now[|now| - 1] == states[j];
    if i + 1 < j {
      DelIsQueued(states, cmds, clock, lib, rs, i, j - 1, k);
    } else {
      assert A.Answers(states[i], cmds[i], clock(i), lib, states[i + 1], rs[i]);
      DelQueues(states[i], k, clock(i), lib, states[j], rs[i]);
    }
  }

  lemma DelQueues(s: A.Abs, k: Bytes, now: nat, lib: A.Library, s': A.Abs, r: Res)
    requires !A.Aborts([DEL, k], lib) && A.Answers(s, [DEL, k], now, lib, s', r) && k in s.values
    ensures OnlyKey(QueuedBy(s, s')) == (if IsLarge(s, k) then [k] else [])
    ensures OnlyKey(FreedBy(s, s')) == (if IsLarge(s, k) then [] else [k])
  {
    hide A.Answers, A.LargeKeys, IsLarge;
    AnswersMeant(s, [DEL, k], now, lib, s', r);
    LargeMeans(s, k);
    OnlyKeyIs(k);
    assert s.values.Keys - s'.values.Keys == {k};
    assert QueuedBy(s, s') == (if IsLarge(s, k) then {k} else {});
    assert FreedBy(s, s') == (if IsLarge(s, k) then {} else {k});
  }
}
