/**
 * The thread pool as the owner of entries: whatever the interleaving, what its steps do to the entries are
 * the steps of the ledger.
 */
module PoolOwners {
  import opened Seqs
  import opened Entries
  import opened ThreadPool

  /** The entries at the addresses that name tasks. */
  ghost function Named(at: Task -> Entry, ts: seq<Task>): (es: seq<Entry>)
    ensures |es| == |ts|
  {
    seq(|ts|, i requires 0 <= i < |ts| => at(ts[i]))
  }

  predicate HasTask(pc: Pc) { pc.Holding? || pc.Running? }

  /** The tasks that workers have popped and not finished. */
  ghost function Hands(at: Task -> Entry, ws: seq<Pc>): set<Entry> {
    set i | 0 <= i < |ws| && HasTask(ws[i]) :: at(ws[i].task)
  }

  /** The owners of the entries: one that has not been pushed is still stored. */
  ghost function Owners(at: Task -> Entry, s: State, all: set<Entry>): Ledger {
    Ledger(all - Elems(Named(at, s.pushed)), Named(at, s.queue), Hands(at, s.workers), Named(at, s.finished))
  }

  /** What a step is to the ledger: nothing, an entry on its way to the queue, taken by a worker, or destroyed. */
  ghost predicate LedgerStep(a: Ledger, b: Ledger) {
    || b == a || (exists key :: Departed(a, b, {key}, {key}))
    || (a.queue != [] && Taken(a, b)) || (a.running != {} && Finished(a, b))
  }

  /** Each entry has its own key, and is pushed once at most. */
  ghost predicate OncePushed(at: Task -> Entry, pushed: seq<Task>, all: set<Entry>) {
    && NoDup(Named(at, pushed)) && Elems(Named(at, pushed)) <= all
    && forall e <- all, f <- all :: e.key == f.key ==> e == f
  }

  // ----- one worker's place changes -----

  lemma HandsSame(at: Task -> Entry, ws: seq<Pc>, i: nat, pc: Pc)
    requires i < |ws| && HasTask(ws[i]) == HasTask(pc) && (HasTask(pc) ==> pc.task == ws[i].task)
    ensures Hands(at, ws[i := pc]) == Hands(at, ws)
  {
    SameHands(at, ws, ws[i := pc]);
  }

  lemma SameHands(at: Task -> Entry, ws: seq<Pc>, ws': seq<Pc>)
    requires |ws'| == |ws|
    requires forall j | 0 <= j < |ws| ::
               HasTask(ws[j]) == HasTask(ws'[j]) && (HasTask(ws[j]) ==> ws'[j].task == ws[j].task)
    ensures Hands(at, ws') == Hands(at, ws)
  {
  }

  lemma HandsMore(at: Task -> Entry, ws: seq<Pc>, i: nat, pc: Pc)
    requires i < |ws| && !HasTask(ws[i]) && HasTask(pc)
    ensures Hands(at, ws[i := pc]) == Hands(at, ws) + {at(pc.task)}
  {
    var after := ws[i := pc];
    forall e | e in Hands(at, ws) + {at(pc.task)} ensures e in Hands(at, after) {
      if e in Hands(at, ws) {
        var j :| 0 <= j < |ws| && HasTask(ws[j]) && at(ws[j].task) == e;
        assert after[j] == ws[j];
      } else {
        assert after[i] == pc;
      }
    }
  }

  lemma {:induction false} InHandHas(ws: seq<Pc>, i: nat, t: Task)
    requires i < |ws| && Has(ws[i], t)
    ensures InHand(ws, t) >= 1
  {
    if i < |ws| - 1 { InHandHas(ws[..|ws| - 1], i, t); }
  }

  /** A task in the hands of two workers counts twice. */
  lemma {:induction false} InHandTwice(ws: seq<Pc>, i: nat, j: nat, t: Task)
    requires i < j < |ws| && Has(ws[i], t) && Has(ws[j], t)
    ensures InHand(ws, t) >= 2
  {
    var n := |ws| - 1;
    if j < n { InHandTwice(ws[..n], i, j, t); } else { InHandHas(ws[..n], i, t); }
  }

  /** No other worker has the task of worker i. */
  ghost predicate Alone(at: Task -> Entry, ws: seq<Pc>, i: nat)
    requires i < |ws| && HasTask(ws[i])
  {
    forall j | 0 <= j < |ws| && j != i && HasTask(ws[j]) :: at(ws[j].task) != at(ws[i].task)
  }

  lemma HandsLess(at: Task -> Entry, ws: seq<Pc>, i: nat, pc: Pc)
    requires i < |ws| && HasTask(ws[i]) && !HasTask(pc) && Alone(at, ws, i)
    ensures Hands(at, ws[i := pc]) == Hands(at, ws) - {at(ws[i].task)} && at(ws[i].task) in Hands(at, ws)
  {
    var after, e := ws[i := pc], at(ws[i].task);
    forall f | f in Hands(at, ws) && f != e ensures f in Hands(at, after) {
      var j :| 0 <= j < |ws| && HasTask(ws[j]) && at(ws[j].task) == f;
      assert after[j] == ws[j];
    }
    forall f | f in Hands(at, after) ensures f in Hands(at, ws) && f != e {
      var j :| 0 <= j < |ws| && HasTask(after[j]) && at(after[j].task) == f;
      assert j != i && after[j] == ws[j];
    }
  }

  // ----- each task once -----

  lemma NamedConcat(at: Task -> Entry, a: seq<Task>, b: seq<Task>)
    ensures Named(at, a + b) == Named(at, a) + Named(at, b)
  {
  }

  lemma {:induction false} CountMembers(ts: seq<Task>, t: Task)
    ensures Count(ts, t) >= 1 ==> t in ts
    ensures NoDup(ts) ==> Count(ts, t) <= 1
  {
    if ts != [] {
      var n := |ts| - 1;
      assert ts == ts[..n] + [ts[n]];
      CountAppend(ts[..n], ts[n], t);
      if NoDup(ts) { PrefixNoDup(ts[..n], [ts[n]]); }
      CountMembers(ts[..n], t);
    }
  }

  /** Tasks of different names are of different entries. */
  lemma NamesDiffer(at: Task -> Entry, ts: seq<Task>, t: Task, u: Task)
    requires NoDup(Named(at, ts)) && t in ts && u in ts && at(t) == at(u)
    ensures t == u && NoDup(ts)
  {
    var es := Named(at, ts);
    var i, j :| 0 <= i < |ts| && 0 <= j < |ts| && ts[i] == t && ts[j] == u;
    assert es[i] == es[j];
    forall k, l | 0 <= k < l < |ts| ensures ts[k] != ts[l] { assert es[k] != es[l]; }
  }

  /** An entry that is pushed once is in one worker's hands at most. */
  lemma OnlyHand(at: Task -> Entry, s: State, all: set<Entry>, i: nat)
    requires Fifo(s) && OncePushed(at, s.pushed, all) && i < |s.workers| && HasTask(s.workers[i])
    ensures Alone(at, s.workers, i)
  {
    hide Count;
    var ws, t := s.workers, s.workers[i].task;
    NamedConcat(at, s.popped, s.queue);
    PrefixNoDup(Named(at, s.popped), Named(at, s.queue));
    InHandHas(ws, i, t);
    CountMembers(s.popped, t);
    NamesDiffer(at, s.popped, t, t);
    forall j | 0 <= j < |ws| && j != i && HasTask(ws[j]) ensures at(ws[j].task) != at(t) {
      var u := ws[j].task;
      InHandHas(ws, j, u);
      CountMembers(s.popped, u);
      if at(u) == at(t) {
        NamesDiffer(at, s.popped, t, u);
        InHandTwice(ws, if i < j then i else j, if i < j then j else i, t);
      }
    }
  }

  // ----- steps -----

  lemma PopRefines(at: Task -> Entry, s: State, s': State, all: set<Entry>, i: nat)
    requires WorkerPop(s, s', i)
    ensures Taken(Owners(at, s, all), Owners(at, s', all))
  {
    hide Hands;
    HandsMore(at, s.workers, i, s'.workers[i]);
    NamedConcat(at, [s.queue[0]], s.queue[1..]);
    assert [s.queue[0]] + s.queue[1..] == s.queue;
  }

  lemma FinishRefines(at: Task -> Entry, s: State, s': State, all: set<Entry>, i: nat)
    requires WorkerFinish(s, s', i) && Fifo(s) && OncePushed(at, s.pushed, all)
    ensures Owners(at, s, all).running != {} && Finished(Owners(at, s, all), Owners(at, s', all))
  {
    hide Hands, Fifo, OncePushed, Alone;
    OnlyHand(at, s, all, i);
    HandsLess(at, s.workers, i, s'.workers[i]);
    NamedConcat(at, s.finished, [s.workers[i].task]);
  }

  lemma PushRefines(at: Task -> Entry, s: State, s': State, all: set<Entry>)
    requires MainPush(s, s') && OncePushed(at, s'.pushed, all)
    ensures Departed(Owners(at, s, all), Owners(at, s', all), {at(s.main.task).key}, {at(s.main.task).key})
  {
    hide Departed, Hands;
    var e, a, b, was := at(s.main.task), Owners(at, s, all), Owners(at, s', all), Named(at, s.pushed);
    NamedConcat(at, s.pushed, [s.main.task]);
    NamedConcat(at, s.queue, [s.main.task]);
    assert Named(at, s'.pushed) == was + [e] + [];
    NoDupConcat(was, e, []);
    ElemsConcat(was, [e]);
    assert Elems([e]) == {e};
    OneDeparted(a, b, e, {e.key});
  }

  /** Every step of the pool is a step of the ledger. */
  lemma StepRefines(at: Task -> Entry, s: State, s': State, all: set<Entry>)
    requires Next(s, s') && Fifo(s) && OncePushed(at, s'.pushed, all)
    ensures LedgerStep(Owners(at, s, all), Owners(at, s', all)) && OncePushed(at, s.pushed, all)
  {
    hide Departed, Hands, Taken, Finished, Fifo, OncePushed;
    PushedBefore(at, s, s', all);
    if i: nat :| WorkerPop(s, s', i) {
      PopRefines(at, s, s', all, i);
    } else if i: nat :| WorkerFinish(s, s', i) {
      FinishRefines(at, s, s', all, i);
    } else if i: nat :| WorkerLock(s, s', i) || WorkerWait(s, s', i) || WorkerUnlock(s, s', i) || Spurious(s, s', i) {
      HandsSame(at, s.workers, i, s'.workers[i]);
    } else if MainPush(s, s') {
      PushRefines(at, s, s', all);
    } else if woken :| MainSignal(s, s', woken) {
      SameHands(at, s.workers, s'.workers);
    }
  }

  lemma PushedBefore(at: Task -> Entry, s: State, s': State, all: set<Entry>)
    requires Next(s, s') && OncePushed(at, s'.pushed, all)
    ensures OncePushed(at, s.pushed, all)
  {
    if MainPush(s, s') {
      NamedConcat(at, s.pushed, [s.main.task]);
      assert Named(at, [s.main.task]) == [at(s.main.task)];
      PrefixNoDup(Named(at, s.pushed), [at(s.main.task)]);
      ElemsConcat(Named(at, s.pushed), [at(s.main.task)]);
    }
  }

  // ----- runs -----

  lemma NamedElems(at: Task -> Entry, ts: seq<Task>)
    ensures Elems(Named(at, ts)) == set t <- ts :: at(t)
  {
    forall t | t in ts ensures at(t) in Elems(Named(at, ts)) {
      var i :| 0 <= i < |ts| && ts[i] == t;
      assert Named(at, ts)[i] == at(t);
    }
  }

  lemma CountTwice(ts: seq<Task>, i: nat, j: nat)
    requires i < j < |ts| && ts[i] == ts[j]
    ensures Count(ts, ts[i]) >= 2
  {
    var a, b := ts[..j], ts[j..];
    assert ts == a + b;
    CountHas(a, i);
    CountHas(b, 0);
  }

  lemma CountHas(ts: seq<Task>, i: nat)
    requires i < |ts|
    ensures Count(ts, ts[i]) >= 1
  {
  }

  lemma {:induction false} InHandSome(ws: seq<Pc>, t: Task)
    requires InHand(ws, t) >= 1
    ensures exists i :: 0 <= i < |ws| && Has(ws[i], t)
  {
    var n := |ws| - 1;
    if Has(ws[n], t) { assert 0 <= n < |ws|; } else {
      InHandSome(ws[..n], t);
      var i :| 0 <= i < n && Has(ws[..n][i], t);
      assert ws[i] == ws[..n][i];
    }
  }

  /** A popped task is in hand or finished, once, and not both. */
  lemma PoppedOnce(at: Task -> Entry, s: State, t: Task)
    requires Fifo(s) && NoDup(Named(at, s.popped))
    ensures Count(s.finished, t) + InHand(s.workers, t) <= 1
    ensures t in s.popped <==> Count(s.finished, t) + InHand(s.workers, t) == 1
  {
    hide Count;
    CountMembers(s.popped, t);
    if t in s.popped {
      NamesDiffer(at, s.popped, t, t);
      var i :| 0 <= i < |s.popped| && s.popped[i] == t;
      CountHas(s.popped, i);
    } else if Count(s.popped, t) >= 1 { assert false; }
    assert Count(s.popped, t) == Count(s.finished, t) + InHand(s.workers, t);
  }

  /** The popped tasks are those in hand and those finished. */
  lemma PoppedIs(at: Task -> Entry, s: State)
    requires Fifo(s) && NoDup(Named(at, s.popped))
    ensures Elems(Named(at, s.popped)) == Hands(at, s.workers) + Elems(Named(at, s.finished))
    ensures Hands(at, s.workers) !! Elems(Named(at, s.finished)) && NoDup(Named(at, s.finished))
  {
    hide Fifo, Count, InHand, Named, Elems, NoDup;
    NamedElems(at, s.popped);
    NamedElems(at, s.finished);
    forall t | t in s.popped ensures at(t) in Hands(at, s.workers) + (set u <- s.finished :: at(u)) {
      PoppedOnce(at, s, t);
      CountMembers(s.finished, t);
      if t !in s.finished {
        InHandSome(s.workers, t);
        var i :| 0 <= i < |s.workers| && Has(s.workers[i], t);
      }
    }
    forall t | t in s.finished ensures t in s.popped && InHand(s.workers, t) == 0 { FinishedOnce(at, s, t); }
    forall i | 0 <= i < |s.workers| && HasTask(s.workers[i]) ensures s.workers[i].task in s.popped {
      PoppedOnce(at, s, s.workers[i].task);
      InHandHas(s.workers, i, s.workers[i].task);
    }
    forall i, t | 0 <= i < |s.workers| && HasTask(s.workers[i]) && t in s.finished
      ensures at(s.workers[i].task) != at(t) {
      InHandHas(s.workers, i, s.workers[i].task);
      if at(s.workers[i].task) == at(t) { NamesDiffer(at, s.popped, s.workers[i].task, t); }
    }
    FinishedNoDup(at, s);
  }

  lemma FinishedOnce(at: Task -> Entry, s: State, t: Task)
    requires Fifo(s) && NoDup(Named(at, s.popped)) && t in s.finished
    ensures t in s.popped && InHand(s.workers, t) == 0 && Count(s.finished, t) == 1
  {
    hide Fifo, Count;
    PoppedOnce(at, s, t);
    var i :| 0 <= i < |s.finished| && s.finished[i] == t;
    CountHas(s.finished, i);
  }

  lemma FinishedNoDup(at: Task -> Entry, s: State)
    requires Fifo(s) && NoDup(Named(at, s.popped))
    ensures NoDup(Named(at, s.finished))
  {
    hide Fifo, Count, InHand;
    var ts, es := s.finished, Named(at, s.finished);
    forall i, j | 0 <= i < j < |ts| ensures es[i] != es[j] {
      FinishedOnce(at, s, ts[i]);
      FinishedOnce(at, s, ts[j]);
      if es[i] == es[j] {
        NamesDiffer(at, s.popped, ts[i], ts[j]);
        CountTwice(ts, i, j);
      }
    }
  }

  /** In every state of a run each entry has one owner. */
  lemma PoolAccounts(at: Task -> Entry, s: State, all: set<Entry>)
    requires Fifo(s) && OncePushed(at, s.pushed, all)
    ensures var o := Owners(at, s, all); Accounted(o, set e <- o.stored :: e.key) && Ever(o) == all
  {
    hide Fifo, NoDup, Elems, Hands, Named;
    PushedIs(at, s);
    ConcatNoDup(Named(at, s.popped), Named(at, s.queue));
    PoppedIs(at, s);
  }

  lemma PushedIs(at: Task -> Entry, s: State)
    requires Fifo(s)
    ensures Named(at, s.pushed) == Named(at, s.popped) + Named(at, s.queue)
  {
    NamedConcat(at, s.popped, s.queue);
  }

  /**
   * Over every run of the pool, whatever the interleaving: the entries that the main thread pushes, each once,
   * go from the ledger's store to its queue, to a worker and to the freed, in steps of the ledger, and every
   * entry has one owner all the time.
   */
  lemma {:induction false} RunRefines(at: Task -> Entry, run: seq<State>, all: set<Entry>, k: nat)
    requires Behaviour(run) && k < |run| && OncePushed(at, run[k].pushed, all)
    ensures Owners(at, run[0], all) == Ledger(all, [], {}, [])
    ensures forall i | 0 <= i < k :: LedgerStep(Owners(at, run[i], all), Owners(at, run[i + 1], all))
    ensures var o := Owners(at, run[k], all); Accounted(o, set e <- o.stored :: e.key) && Ever(o) == all
  {
    hide LedgerStep, Owners, Fifo, OncePushed, Accounted, Ever, Next;
    AlwaysInv(run, k);
    PoolAccounts(at, run[k], all);
    if k == 0 {
      NothingPushed(at, run[0], all);
    } else {
      AlwaysInv(run, k - 1);
      assert Next(run[k - 1], run[k - 1 + 1]);
      StepRefines(at, run[k - 1], run[k], all);
      RunRefines(at, run, all, k - 1);
    }
  }

  lemma NothingPushed(at: Task -> Entry, s: State, all: set<Entry>)
    requires Init(s)
    ensures Owners(at, s, all) == Ledger(all, [], {}, [])
  {
  }
}
