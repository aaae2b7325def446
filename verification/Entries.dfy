/**
 * The entries of the store: a key with a string or a sorted set, and the index of its timer.
 */
module Entries {
  import opened Names
  import opened Seqs
  import opened ZSets

  /** A key-value pair; the hash node and the timer are embedded in it, container_of is the identity. */
  class Entry {
    const key: Bytes
    const isZSet: bool  // type: T_ZSET rather than T_STR
    var str: Bytes
    const zset: ZSet
    var heapIdx: int    // place of its item in the timer heap, or -1

    /** entry_new */
    constructor (key: Bytes, isZSet: bool)
      ensures this.key == key && this.isZSet == isZSet && str == [] && heapIdx == -1
      ensures zset.Valid() && zset.scores == map[] && fresh(zset.Repr) && this !in zset.Repr
    {
      hide ZSet.Valid;
      this.key, this.isZSet, str, heapIdx := key, isZSet, [], -1;
      zset := new ZSet();
    }
  }

  /** Who owns the entries: the key index, the queue of the workers, a worker, or no one any more. */
  datatype Ledger = Ledger(stored: set<Entry>, queue: seq<Entry>, running: set<Entry>, freed: seq<Entry>)

  /** Every entry ever created. */
  ghost function Ever(o: Ledger): set<Entry> { o.stored + Elems(o.queue) + o.running + Elems(o.freed) }

  /** Every entry is in exactly one place, is freed at most once, and the index has one for every key. */
  ghost predicate Accounted(o: Ledger, keys: set<Bytes>) {
    && NoDup(o.queue) && NoDup(o.freed)
    && o.stored !! Elems(o.queue) + o.running + Elems(o.freed)
    && Elems(o.queue) !! o.running + Elems(o.freed) && o.running !! Elems(o.freed)
    && (forall e <- o.stored, f <- o.stored :: e.key == f.key ==> e == f)
    && (set e <- o.stored :: e.key) == keys
  }

  /**
   * What commands do: entries are created, and leave the index for the queue or are freed; none is lost,
   * and the tasks of the workers are not touched.
   */
  ghost predicate Passed(a: Ledger, b: Ledger) {
    a.queue <= b.queue && a.freed <= b.freed && a.running == b.running && Ever(a) <= Ever(b)
  }

  /** A new entry in the index. */
  ghost predicate Entered(a: Ledger, b: Ledger, e: Entry) { b == a.(stored := a.stored + {e}) }

  /** t is s and then the elements of x, each once. */
  ghost predicate Appended<T>(s: seq<T>, t: seq<T>, x: set<T>) {
    s <= t && NoDup(t[|s|..]) && Elems(t[|s|..]) == x
  }

  /** The stored entries of the given keys. */
  ghost function Leaving(a: Ledger, keys: set<Bytes>): set<Entry> { set e | e in a.stored && e.key in keys }

  /**
   * The entries of the given keys, and no others, leave the index: those of large keys for the queue, the
   * others are freed.
   */
  ghost predicate Departed(a: Ledger, b: Ledger, keys: set<Bytes>, large: set<Bytes>) {
    && b.stored == (set e | e in a.stored && e.key !in keys) && a.running == b.running
    && Appended(a.queue, b.queue, Leaving(a, keys * large)) && Appended(a.freed, b.freed, Leaving(a, keys - large))
  }

  lemma NonePassed(a: Ledger, large: set<Bytes>)
    ensures Passed(a, a) && Departed(a, a, {}, large)
  {
  }

  lemma PassedOn(a: Ledger, b: Ledger, c: Ledger)
    requires Passed(a, b) && Passed(b, c)
    ensures Passed(a, c)
  {
  }

  lemma EnteredPassed(a: Ledger, b: Ledger, e: Entry)
    requires Entered(a, b, e)
    ensures Passed(a, b)
  {
  }

  lemma AppendedElems<T>(s: seq<T>, t: seq<T>, x: set<T>)
    requires Appended(s, t, x)
    ensures s <= t && Elems(t) == Elems(s) + x
  {
    assert t == s + t[|s|..];
    ElemsConcat(s, t[|s|..]);
  }

  lemma DepartedPassed(a: Ledger, b: Ledger, keys: set<Bytes>, large: set<Bytes>)
    requires Departed(a, b, keys, large)
    ensures Passed(a, b) && Ever(a) == Ever(b)
  {
    hide Appended;
    AppendedElems(a.queue, b.queue, Leaving(a, keys * large));
    AppendedElems(a.freed, b.freed, Leaving(a, keys - large));
  }

  lemma AppendedMore<T>(s: seq<T>, t: seq<T>, u: seq<T>, x: set<T>, y: set<T>)
    requires Appended(s, t, x) && Appended(t, u, y) && x !! y
    ensures Appended(s, u, x + y)
  {
    assert u[|s|..] == t[|s|..] + u[|t|..];
    NoDupAppend(t[|s|..], u[|t|..]);
    ElemsConcat(t[|s|..], u[|t|..]);
  }

  lemma LeavingMore(a: Ledger, b: Ledger, keys: set<Bytes>, key: Bytes, x: set<Bytes>, y: set<Bytes>)
    requires b.stored == (set e | e in a.stored && e.key !in keys) && key !in keys && x <= keys && y <= {key}
    ensures Leaving(a, x) !! Leaving(b, y) && Leaving(a, x) + Leaving(b, y) == Leaving(a, x + y)
  {
  }

  /** One more key departs; only whether this key is large matters. */
  lemma MoreDeparted(a: Ledger, b: Ledger, c: Ledger, keys: set<Bytes>, key: Bytes, large: set<Bytes>, now: set<Bytes>)
    requires Departed(a, b, keys, large) && Departed(b, c, {key}, now)
    requires key !in keys && (key in large <==> key in now)
    ensures Departed(a, c, keys + {key}, large)
  {
    hide Appended;
    LeavingMore(a, b, keys, key, keys * large, {key} * now);
    LeavingMore(a, b, keys, key, keys - large, {key} - now);
    AppendedMore(a.queue, b.queue, c.queue, Leaving(a, keys * large), Leaving(b, {key} * now));
    AppendedMore(a.freed, b.freed, c.freed, Leaving(a, keys - large), Leaving(b, {key} - now));
    assert keys * large + {key} * now == (keys + {key}) * large;
    assert keys - large + ({key} - now) == keys + {key} - large;
  }

  /** An entry at the end of the queue, when it is large, or freed. */
  lemma OneDeparted(a: Ledger, b: Ledger, e: Entry, large: set<Bytes>)
    requires e in a.stored && (forall f <- a.stored :: f.key == e.key ==> f == e)
    requires b.stored == a.stored - {e} && b.running == a.running
    requires if e.key in large then b.queue == a.queue + [e] && b.freed == a.freed
             else b.queue == a.queue && b.freed == a.freed + [e]
    ensures Departed(a, b, {e.key}, large)
  {
    assert Elems([e]) == {e} && Leaving(a, {e.key}) == {e} && Leaving(a, {}) == {};
    assert {e.key} * large == (if e.key in large then {e.key} else {});
    assert {e.key} - large == (if e.key in large then {} else {e.key});
  }

  /** A worker takes the first task of the queue, if there is one. */
  ghost predicate Taken(a: Ledger, b: Ledger) {
    if a.queue == [] then b == a else b == a.(queue := a.queue[1..], running := a.running + {a.queue[0]})
  }

  /** A worker finishes some task, if any has one. */
  ghost predicate Finished(a: Ledger, b: Ledger) {
    if a.running == {} then b == a
    else exists e <- a.running :: b == a.(running := a.running - {e}, freed := a.freed + [e])
  }
}
