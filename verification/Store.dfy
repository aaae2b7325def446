/**
 * The global state: the key index, the timer heap, the queue of the thread pool, and who owns
 * which entry.
 */
module Stores {
  import opened Names
  import opened Seqs
  import opened HashTable
  import opened HashMap
  import opened KeyIndex
  import opened Avl
  import opened Abstract
  import opened ZSets
  import opened Entries
  import opened TtlHeap

  type EntryHN = HNode<Entry>


  lemma SubsetSize<T>(a: set<T>, b: set<T>)
    requires a <= b
    ensures |a| <= |b|
  {
    assert b == a + (b - a);
  }

  ghost function ValueOf(e: Entry): Value
    reads e`str, e.zset`scores
  {
    if e.isZSet then SetV(e.zset.scores) else StrV(e.str)
  }

  lemma ValuesAdd<K, V>(m: map<K, V>, k: K, v: V)
    requires k !in m
    ensures m[k := v].Values == m.Values + {v}
  {
    assert m[k := v][k] == v;
    forall x | x in m.Values ensures x in m[k := v].Values {
      var j :| j in m && m[j] == x;
      assert m[k := v][j] == x;
    }
  }

  lemma ValuesRemove<K, V>(m: map<K, V>, k: K)
    requires k in m && forall j <- m :: j != k ==> m[j] != m[k]
    ensures (m - {k}).Values == m.Values - {m[k]}
  {
    forall x | x in m.Values && x != m[k] ensures x in (m - {k}).Values {
      var j :| j in m && m[j] == x;
      assert (m - {k})[j] == x;
    }
  }

  /** The sorted sets of the live entries are sound and apart from each other. */
  ghost predicate ZSetsOver(live: set<Entry>, zparts: set<object>)
    reads zparts
  {
    && (forall e <- live :: e.zset in zparts && e.zset.Repr <= zparts && e.zset.Ok())
    && (forall e, f | e in live && f in live && e != f ::
          e.zset in zparts && f.zset in zparts && e.zset.Repr !! f.zset.Repr)
  }

  lemma ZSetsAdd(live: set<Entry>, zparts: set<object>, e: Entry)
    requires ZSetsOver(live, zparts) && e.zset.Ok() && e.zset.Repr !! zparts
    ensures ZSetsOver(live + {e}, zparts + e.zset.Repr)
  {
    hide ZSet.Ok;
  }

  /** The values are those of the entries. */
  ghost predicate ValuesOver(entries: map<Bytes, Entry>, values: map<Bytes, Value>, zparts: set<object>)
    reads zparts, entries.Values`str
  {
    && values.Keys == entries.Keys
    && forall k <- entries :: entries[k].zset in zparts && values[k] == ValueOf(entries[k])
  }

  lemma ValuesOverAdd(entries: map<Bytes, Entry>, values: map<Bytes, Value>, zparts: set<object>, k: Bytes, e: Entry,
                      zparts': set<object>)
    requires ValuesOver(entries, values, zparts) && zparts <= zparts' && e.zset in zparts'
    ensures ValuesOver(entries[k := e], values[k := ValueOf(e)], zparts')
  {
  }

  /** The values of the other keys, for the time that one entry is being changed. */
  lemma ValuesTake(entries: map<Bytes, Entry>, values: map<Bytes, Value>, zparts: set<object>, k: Bytes,
                   parts: set<object>)
    requires ValuesOver(entries, values, zparts) && k in entries
    requires forall j <- entries :: j != k ==> entries[j] != entries[k] && entries[j].zset !in parts
    ensures ValuesOver(entries - {k}, values - {k}, zparts - parts)
    ensures entries[k] !in (entries - {k}).Values
  {
  }

  lemma ValuesPut(entries: map<Bytes, Entry>, values: map<Bytes, Value>, zparts: set<object>, k: Bytes,
                  zparts': set<object>)
    requires k in entries && ValuesOver(entries - {k}, values - {k}, zparts)
    requires zparts <= zparts' && entries[k].zset in zparts'
    ensures ValuesOver(entries, values[k := ValueOf(entries[k])], zparts')
  {
    ValuesOverAdd(entries - {k}, values - {k}, zparts, k, entries[k], zparts');
    assert (entries - {k})[k := entries[k]] == entries;
    assert (values - {k})[k := ValueOf(entries[k])] == values[k := ValueOf(entries[k])];
  }

  /** Parts in which no entry's sorted set takes part do not matter to the values. */
  lemma ValuesKeepOff(entries: map<Bytes, Entry>, values: map<Bytes, Value>, zparts: set<object>, parts: set<object>)
    requires ValuesOver(entries, values, zparts) && forall k <- entries :: entries[k].zset !in parts
    ensures ValuesOver(entries, values, zparts - parts)
  {
  }

  /** The sorted sets of the other entries, which have no part in this one. */
  lemma ZSetsTake(live: set<Entry>, zparts: set<object>, e: Entry)
    requires ZSetsOver(live, zparts) && e in live
    ensures e.zset in zparts && e.zset.Repr <= zparts && e.zset.Ok() && e.zset in e.zset.Repr
    ensures ZSetsOver(live - {e}, zparts - e.zset.Repr)
    ensures forall f <- live :: f != e ==> f.zset in zparts && f.zset !in e.zset.Repr
  {
  }

  /** Every live entry is in exactly one place. */
  ghost predicate OwnedOnce(live: set<Entry>, stored: set<Entry>, queue: seq<Entry>, running: set<Entry>,
                            transit: set<Entry>) {
    && live == stored + Elems(queue) + running + transit && NoDup(queue)
    && stored !! Elems(queue) && stored !! running && Elems(queue) !! running &&
        transit !! stored + Elems(queue) + running
  }

  /** The deadlines by key. */
  ghost function DeadlinesOf(entries: map<Bytes, Entry>, due: Due): map<Bytes, nat> {
    map k | k in entries && entries[k] in due :: due[entries[k]]
  }

  /** Every entry stands under its own key. */
  ghost predicate OwnKeys(entries: map<Bytes, Entry>) {
    forall k <- entries :: entries[k].key == k
  }

  lemma DeadlinesRemove(entries: map<Bytes, Entry>, due: Due, e: Entry)
    requires OwnKeys(entries) && e.key in entries && entries[e.key] == e
    ensures DeadlinesOf(entries - {e.key}, due - {e}) == DeadlinesOf(entries, due) - {e.key}
    ensures DeadlinesOf(entries, due - {e}) == DeadlinesOf(entries, due) - {e.key}
  {
    DeadlinesWithout(entries, entries, due, e);
    DeadlinesWithout(entries, entries - {e.key}, due, e);
  }

  lemma DeadlinesWithout(entries: map<Bytes, Entry>, rest: map<Bytes, Entry>, due: Due, e: Entry)
    requires OwnKeys(entries) && e.key in entries && entries[e.key] == e
    requires rest == entries || rest == entries - {e.key}
    ensures DeadlinesOf(rest, due - {e}) == DeadlinesOf(entries, due) - {e.key}
  {
  }

  lemma DeadlinesSet(entries: map<Bytes, Entry>, due: Due, e: Entry, at: nat)
    requires OwnKeys(entries) && e.key in entries && entries[e.key] == e
    ensures DeadlinesOf(entries, due[e := at]) == DeadlinesOf(entries, due)[e.key := at]
  {
  }

  lemma DeadlinesAdd(entries: map<Bytes, Entry>, due: Due, k: Bytes, e: Entry)
    requires k !in entries && e !in due
    ensures DeadlinesOf(entries[k := e], due) == DeadlinesOf(entries, due)
  {
  }

  /** A new entry in the index. */
  lemma OneEntered(es: map<Bytes, Entry>, e: Entry, a: Ledger, b: Ledger)
    requires e.key !in es && a.stored == es.Values && b == a.(stored := es[e.key := e].Values)
    ensures Entered(a, b, e)
  {
    var after := es[e.key := e];
    assert after[e.key] == e && forall k <- es :: after[k] == es[k];
    forall f | f in es.Values + {e} ensures f in after.Values {
      if f != e {
        var k :| k in es && es[k] == f;
        assert after[k] == f;
      }
    }
  }

  /** An entry leaves the index. */
  lemma OneGone(es: map<Bytes, Entry>, e: Entry, a: Ledger, b: Ledger, large: set<Bytes>)
    requires OwnKeys(es) && e.key in es && es[e.key] == e
    requires a.stored == es.Values && b.stored == (es - {e.key}).Values && b.running == a.running
    requires if e.key in large then b.queue == a.queue + [e] && b.freed == a.freed
             else b.queue == a.queue && b.freed == a.freed + [e]
    ensures Departed(a, b, {e.key}, large)
  {
    hide Departed;
    var rest := es - {e.key};
    assert forall k <- rest :: rest[k] == es[k] && es[k] != e;
    assert forall f <- es.Values :: f != e ==> f.key in rest && rest[f.key] == f;
    assert rest.Values == es.Values - {e};
    OneDeparted(a, b, e, large);
  }

  lemma SameLarge(a: Ledger, b: Ledger, key: Bytes, large: set<Bytes>, big: set<Bytes>)
    requires Departed(a, b, {key}, large) && (key in large <==> key in big)
    ensures Departed(a, b, {key}, big)
  {
    assert {key} * large == {key} * big && {key} - large == {key} - big;
  }

  /** No entry has the key. */
  lemma NoneGone(es: map<Bytes, Entry>, key: Bytes, a: Ledger, large: set<Bytes>)
    requires OwnKeys(es) && key !in es && a.stored == es.Values
    ensures Departed(a, a, {key}, large)
  {
  }

  class Store {
    const db: HMap<Entry>
    const heap: Heap
    var queue: seq<Entry>            // entries waiting for a worker to destroy them
    var running: set<Entry>          // entries that workers are destroying
    ghost var freed: seq<Entry>      // entries that have been destroyed, in order
    ghost var live: set<Entry>       // entries that have not
    ghost var entries: map<Bytes, Entry>
    ghost var hashed: map<Bytes, EntryHN>
    ghost var values: map<Bytes, Value>  // the store as a value
    ghost var core: set<object>      // the objects of the store, sorted sets aside
    ghost var zparts: set<object>    // the objects of the sorted sets

    /** The key index holds exactly the given entries. */
    ghost predicate DbOver(es: map<Bytes, Entry>)
      reads this`hashed, db, db.newer, db.older, db.newer.tab, db.older.tab, db.newer.nodes, db.older.nodes
      ensures DbOver(es) ==> {db, db.newer, db.older} <= db.parts && OwnKeys(es)
      ensures DbOver(es) && db.newer.tab != null ==> db.newer.tab in db.parts
      ensures DbOver(es) && db.older.tab != null ==> db.older.tab in db.parts
    {
      db.Valid() && Keyed(db.Nodes(), es, hashed) && OwnKeys(es)
    }

    /** The timer heap holds items of the given entries only, each of which knows where its item is. */
    ghost predicate HeapOver(es: set<Entry>)
      reads heap, es`heapIdx
      ensures HeapOver(es) ==> heap.due.Keys <= es
    {
      heap.due.Keys <= es && heap.Valid() && forall e <- es :: e !in heap.due ==> e.heapIdx == -1
    }

    /** Every live entry is in exactly one place: in the index, in the queue, with a worker, or in transit. */
    ghost predicate Owned(transit: set<Entry>)
      reads this`entries, this`queue, this`running, this`freed, this`live
    {
      OwnedOnce(live, entries.Values, queue, running, transit) && NoDup(freed) && Elems(freed) !! live
    }

    ghost predicate Apart()
      reads this`core, this`zparts, this`live, db, db.newer, db.older
    {
      && {this, heap} + live <= core && db.parts + db.Nodes() <= core && core !! zparts
      && this !in db.parts && heap !in db.parts && live !! db.parts
    }

    /** All but the key index: the timers, the values and the owners of the entries. */
    ghost predicate Body(transit: set<Entry>)
      reads this`entries, this`values, this`queue, this`running, this`freed, this`live, this`zparts
      reads heap, entries.Values`heapIdx, entries.Values`str, transit`heapIdx, zparts
      ensures Body(transit) ==> entries.Values + transit <= live && heap.due.Keys <= live && values.Keys == entries.Keys
    {
      && HeapOver(entries.Values + transit) && ZSetsOver(live, zparts) && ValuesOver(entries, values, zparts)
      && Owned(transit)
    }

    ghost predicate Valid()
      reads this, heap, entries.Values, zparts
      reads db, db.newer, db.older, db.newer.tab, db.older.tab, db.newer.nodes, db.older.nodes
    {
      Apart() && DbOver(entries) && Body({})
    }

    lemma Parts()
      requires Valid()
      ensures Apart() && DbOver(entries) && Body({})
    {
    }

    /** Valid, for callers that know the store by its footprint only. */
    ghost predicate Ok()
      reads this, core, zparts
      ensures Ok() ==> this in core && heap in core
    {
      && {this, heap, db} <= core && {db.newer, db.older} <= core && entries.Values <= core
      && (db.newer.tab != null ==> db.newer.tab in core) && (db.older.tab != null ==> db.older.tab in core)
      && db.newer.nodes <= core && db.older.nodes <= core
      && Valid()
    }

    lemma OkIsValid()
      ensures Ok() <==> Valid()
      ensures Valid() ==> Apart() && DbOver(entries) && Body({})
    {
    }

    /** The deadline of every key that has one. */
    ghost function Deadlines(): map<Bytes, nat>
      reads this`entries, heap`due
    {
      DeadlinesOf(entries, heap.due)
    }

    /** Only keys of the store have deadlines. */
    lemma DeadlineKeys()
      requires Ok()
      ensures Deadlines().Keys <= values.Keys
    {
      hide DbOver, Apart, HeapOver, ZSetsOver, Owned;
    }

    /** Who owns the entries. */
    ghost function Owners(): Ledger
      reads this`entries, this`queue, this`running, this`freed
    {
      Ledger(entries.Values, queue, running, freed)
    }

    /** The store as a value. */
    ghost function State(): Abs
      reads this`entries, this`values, heap`due
    {
      Abs(values, Deadlines())
    }

    constructor ()
      ensures Valid() && fresh(core) && fresh(zparts) && values == map[] && entries == map[] && heap.due == map[]
      ensures queue == [] && running == {} && freed == []
    {
      hide *;
      db := new HMap();
      heap := new Heap();
      queue, running, freed, live, entries, hashed, values, zparts := [], {}, [], {}, map[], map[], map[], {};
      new;
      core := {this, heap} + db.parts;
      EmptyIsValid();
    }

    lemma EmptyIsValid()
      requires queue == [] && running == {} && freed == [] && live == {} && zparts == {}
      requires entries == map[] && hashed == map[] && values == map[]
      requires heap.Valid() && heap.due == map[] && db.Valid() && db.Nodes() == {} && core == {this, heap} + db.parts
      requires this !in db.parts && heap !in db.parts
      ensures Valid()
    {
    }

    lemma EmptyState()
      requires entries == map[] && values == map[] && queue == [] && running == {} && freed == []
      ensures State() == Abs(map[], map[]) && Owners() == Ledger({}, [], {}, [])
    {
    }

    lemma KeyMatch(key: Bytes)
      requires DbOver(entries)
      ensures key in entries <==> key in hashed
      ensures key in hashed ==> hashed[key] in db.Nodes() && hashed[key].hcode == StrHash(key) && hashed[key].key == key
      ensures key in entries ==> hashed[key].owner == entries[key] && entries[key].key == key
      ensures forall h <- db.Nodes() :: h.key == key ==> key in hashed && h == hashed[key]
    {
    }

    /** hm_lookup by key. */
    method DbFind(key: Bytes) returns (e: Entry?)
      requires DbOver(entries) && this !in db.parts
      modifies db.parts, db.Nodes()
      ensures DbOver(entries) && fresh(db.parts - old(db.parts)) && db.Nodes() == old(db.Nodes())
      ensures e == if key in entries then entries[key] else null
      ensures e != null ==> e.key == key
    {
      hide HMap.Valid, Keyed, StrHash;
      KeyMatch(key);
      var hcode := ComputeHash(key);
      var found := db.Lookup(hcode, (h: EntryHN) => h.key == key);
      e := if found == null then null else found.owner;
    }

    /** get_entry: find a key; some keys may migrate, nothing else changes. */
    method Find(key: Bytes) returns (e: Entry?)
      requires Valid()
      modifies core
      ensures Valid() && fresh(core - old(core)) && zparts == old(zparts)
      ensures State() == old(State()) && Owners() == old(Owners())
      ensures e == null <==> key !in values
      ensures e != null ==> e.key == key && Has(e)
    {
      hide DbOver, Body, DeadlinesOf;
      e := DbFind(key);
      core := core + db.parts;
    }

    /** hm_insert of a new entry that the ghost record already holds. */
    method DbInsert(e: Entry, ghost es: map<Bytes, Entry>)
      requires DbOver(es) && e.key !in es && this !in db.parts
      modifies this`hashed, db.parts, db.Nodes()
      ensures DbOver(es[e.key := e]) && fresh(db.parts - old(db.parts)) && fresh(db.Nodes() - old(db.Nodes()))
    {
      hide HMap.Valid, Keyed, StrHash;
      var hcode := ComputeHash(e.key);
      var h := new HNode(hcode, e.key, e);
      KeyedAdd(db.Nodes(), es, hashed, h);
      db.Insert(h);
      hashed := hashed[e.key := h];
    }

    /** The ghost record with a new entry. */
    ghost method Enroll(e: Entry)
      requires Body({}) && e !in live && e !in Elems(freed) && e.key !in entries && e.heapIdx == -1 && e !in heap.due
      requires e.zset.Ok() && e.zset.Repr !! zparts && this !in e.zset.Repr + zparts
      modifies this`entries, this`values, this`live, this`zparts
      ensures Body({}) && entries == old(entries)[e.key := e] && values == old(values)[e.key := ValueOf(e)]
      ensures live == old(live) + {e} && zparts == old(zparts) + e.zset.Repr
    {
      hide Heap.Valid, ZSet.Ok, ZSetsOver, ValuesOver;
      ValuesAdd(entries, e.key, e);
      ZSetsAdd(live, zparts, e);
      ValuesOverAdd(entries, values, zparts, e.key, e, zparts + e.zset.Repr);
      entries, values := entries[e.key := e], values[e.key := ValueOf(e)];
      live, zparts := live + {e}, zparts + e.zset.Repr;
    }

    /** entry_new: a new entry with its value, not yet in the key index. */
    method Create(key: Bytes, isZSet: bool, str: Bytes) returns (e: Entry)
      requires Apart() && Body({}) && key !in entries
      modifies this`entries, this`values, this`live, this`core, this`zparts
      ensures Apart() && Body({}) && fresh(e) && e.key == key && e.isZSet == isZSet
      ensures entries == old(entries)[key := e] &&
              values == old(values)[key := if isZSet then SetV(map[]) else StrV(str)]
      ensures live == old(live) + {e} && core == old(core) + {e} && e !in heap.due
      ensures old(zparts) <= zparts && fresh(zparts - old(zparts))
    {
      hide Body, Apart, ZSet.Valid, ZSet.Ok;
      BodyParts();
      e := new Entry(key, isZSet);
      e.str := str;
      e.zset.OkIsValid();
      Admit(e);
    }

    /** A new entry with its objects. */
    ghost method Admit(e: Entry)
      requires Apart() && Body({}) && e !in core && e !in Elems(freed) && e.key !in entries && e.heapIdx == -1
      requires e !in heap.due && e.zset.Ok() && e.zset.Repr !! zparts + core && e !in zparts + e.zset.Repr
      modifies this`entries, this`values, this`live, this`core, this`zparts
      ensures Apart() && Body({})
      ensures entries == old(entries)[e.key := e] && values == old(values)[e.key := ValueOf(e)]
      ensures live == old(live) + {e} && core == old(core) + {e} && zparts == old(zparts) + e.zset.Repr
    {
      hide Body, ZSet.Ok;
      Enroll(e);
      core := core + {e};
    }

    /** hm_insert, completing a new key. */
    method Index(e: Entry, ghost es: map<Bytes, Entry>)
      requires Apart() && Body({}) && DbOver(es) && e.key !in es && entries == es[e.key := e]
      modifies this`hashed, this`core, db.parts, db.Nodes()
      ensures Valid() && old(core) <= core && fresh(core - old(core))
    {
      hide DbOver, Body, Apart;
      BodyParts();
      DbInsert(e, es);
      Widen(db.parts + db.Nodes());
    }

    lemma BodyParts()
      requires Apart()
      ensures this !in db.parts && heap !in db.parts && live !! db.parts && db.parts + db.Nodes() <= core
      ensures {this, heap} + live <= core && core !! zparts
    {
    }

    /** Objects of the index that are new to the record. */
    ghost method Widen(more: set<object>)
      requires DbOver(entries) && Body({}) && {this, heap} + live <= core && core + more !! zparts
      requires more == db.parts + db.Nodes() && this !in db.parts && heap !in db.parts && live !! db.parts
      modifies this`core
      ensures Valid() && core == old(core) + more
    {
      hide DbOver, Body;
      core := core + more;
    }

    /** entry_new and hm_insert: a new key with its value. */
    method Add(key: Bytes, isZSet: bool, str: Bytes) returns (e: Entry)
      requires Valid() && key !in values
      modifies core
      ensures Valid() && fresh(e) && e.key == key && e.isZSet == isZSet && Has(e)
      ensures values == old(values)[key := if isZSet then SetV(map[]) else StrV(str)] && Deadlines() == old(Deadlines())
      ensures fresh(core - old(core)) && fresh(zparts - old(zparts)) && Entered(old(Owners()), Owners(), e)
    {
      hide DbOver, Body, DeadlinesOf, Entered;
      ghost var es, owners := entries, Owners();
      e := Create(key, isZSet, str);
      DeadlinesAdd(es, heap.due, key, e);
      Index(e, es);
      OneEntered(es, e, owners, Owners());
    }

    /** e is an entry of the store. */
    ghost predicate Has(e: Entry)
      reads this`entries
    {
      e.key in entries && entries[e.key] == e
    }

    /** No other key leads to e. */
    lemma OwnKey(e: Entry)
      requires DbOver(entries) && Has(e)
      ensures forall k <- entries :: k != e.key ==> entries[k] != e
    {
    }

    /** The store while entry e, whose sorted set has the given parts, is being changed. */
    ghost predicate Lent(e: Entry, parts: set<object>)
      reads this, heap, entries.Values`heapIdx, (entries - {e.key}).Values`str, zparts - parts
      reads db, db.newer, db.older, db.newer.tab, db.older.tab, db.newer.nodes, db.older.nodes
    {
      && Apart() && DbOver(entries) && Has(e) && HeapOver(entries.Values) && Owned({})
      && ZSetsOver(live - {e}, zparts - parts) && ValuesOver(entries - {e.key}, values - {e.key}, zparts - parts)
    }

    lemma Lend(e: Entry)
      requires Valid() && Has(e)
      ensures Lent(e, e.zset.Repr) && e !in (entries - {e.key}).Values
      ensures e.zset.Ok() && e.zset.Valid() && e.zset.Repr <= zparts && e in live && Apart() && DbOver(entries) &&
              entries.Values <= live
      ensures e.key in values && values[e.key] == ValueOf(e)
    {
      hide ZSetsOver, ValueOf, HeapOver, DbOver, ZSet.Valid, ZSet.Ok;
      OwnKey(e);
      ZSetsTake(live, zparts, e);
      ValuesTake(entries, values, zparts, e.key, e.zset.Repr);
      e.zset.OkIsValid();
      assert entries.Values + {} == entries.Values;
    }

    /** The entry is in order again: its key has the value that it now holds. */
    ghost method Return(e: Entry, parts: set<object>)
      requires Lent(e, parts) && e.zset.Ok() && e.zset.Repr !! zparts - parts && e.zset.Repr !! core
      modifies this`values, this`zparts
      ensures Valid() && values == old(values)[e.key := ValueOf(e)]
      ensures zparts == old(zparts) - parts + e.zset.Repr
    {
      hide ZSetsOver, ValuesOver, ValueOf, HeapOver, DbOver, ZSet.Ok;
      ZSetsAdd(live - {e}, zparts - parts, e);
      assert live - {e} + {e} == live;
      ValuesPut(entries, values, zparts - parts, e.key, zparts - parts + e.zset.Repr);
      values, zparts := values[e.key := ValueOf(e)], zparts - parts + e.zset.Repr;
      assert entries.Values + {} == entries.Values;
    }

    /** ent->str.swap, and the ghost record of it. */
    method SwapStr(e: Entry, s: Bytes)
      requires Valid() && Has(e) && !e.isZSet
      modifies e`str, this`values, this`zparts
      ensures Valid() && values == old(values)[e.key := StrV(s)] && zparts == old(zparts)
    {
      hide Valid, Lent, ValueOf, ZSet.Valid, ZSet.Ok, DbOver;
      Lend(e);
      e.str := s;
      Return(e, e.zset.Repr);
      StrValue(e);
      assert zparts == old(zparts);
    }

    /** Store a string under an existing key: only the value of this key changes. */
    method SetStr(e: Entry, s: Bytes)
      requires Valid() && Has(e) && !e.isZSet
      modifies core
      ensures Valid() && values == old(values)[e.key := StrV(s)] && zparts == old(zparts) && core == old(core)
      ensures Deadlines() == old(Deadlines()) && Owners() == old(Owners())
    {
      hide Valid, DbOver, Body, DeadlinesOf;
      Parts();
      SwapStr(e, s);
    }

    lemma StrValue(e: Entry)
      requires !e.isZSet
      ensures ValueOf(e) == StrV(e.str)
    {
    }

    /** heap_upsert for an entry, on a heap over the given entries. */
    method HeapSet(e: Entry, at: nat, ghost es: set<Entry>)
      requires HeapOver(es) && e in es
      modifies heap, heap.due.Keys`heapIdx, e`heapIdx
      ensures HeapOver(es) && heap.due == old(heap.due)[e := at]
    {
      hide Heap.Valid;
      ghost var due := heap.due;
      if e in heap.due { heap.ItemOf(e); }
      heap.Upsert(e.heapIdx, HeapItem(at, e));
      assert (due - {e})[e := at] == due[e := at];
    }

    /** entry_remove_ttl: the entry's own item is the one that goes. */
    method HeapClear(e: Entry, ghost es: set<Entry>)
      requires HeapOver(es) && e in es
      modifies heap, heap.due.Keys`heapIdx, e`heapIdx
      ensures HeapOver(es) && HeapOver(es - {e}) && heap.due == old(heap.due) - {e} && e.heapIdx == -1
    {
      hide Heap.Valid;
      if e.heapIdx == -1 {
        if e in heap.due { heap.ItemOf(e); }
        assert heap.due == heap.due - {e};
        return;
      }
      heap.ItemOf(e);
      heap.Delete(e.heapIdx);
      e.heapIdx := -1;
    }

    /** entry_set_ttl */
    method SetTtl(e: Entry, at: nat)
      requires Valid() && Has(e)
      modifies core
      ensures Valid() && Deadlines() == old(Deadlines())[e.key := at]
      ensures values == old(values) && core == old(core) && zparts == old(zparts) && Owners() == old(Owners())
    {
      hide ZSetsOver, ValuesOver, HeapOver, DbOver, OwnKeys, DeadlinesOf;
      DeadlinesSet(entries, heap.due, e, at);
      assert entries.Values + {} == entries.Values;
      HeapSet(e, at, entries.Values);
    }

    /** entry_remove_ttl */
    method RemoveTtl(e: Entry)
      requires Valid() && Has(e)
      modifies core
      ensures Valid() && Deadlines() == old(Deadlines()) - {e.key}
      ensures values == old(values) && core == old(core) && zparts == old(zparts) && Owners() == old(Owners())
    {
      hide ZSetsOver, ValuesOver, HeapOver, DbOver, OwnKeys, DeadlinesOf;
      DeadlinesRemove(entries, heap.due, e);
      assert entries.Values + {} == entries.Values;
      HeapClear(e, entries.Values);
    }

    // ----- sorted sets in the store -----

    lemma SetValue(e: Entry)
      requires e.isZSet
      ensures ValueOf(e) == SetV(e.zset.scores)
    {
    }

    /** zset_insert into an entry's sorted set. */
    method ZInsert(e: Entry, name: Bytes, score: Score) returns (added: bool)
      requires Valid() && Has(e) && e.isZSet
      modifies this`values, this`zparts, e.zset.Repr
      ensures Valid() && fresh(zparts - old(zparts))
      ensures values == old(values)[e.key := SetV(old(e.zset.scores)[name := score])]
      ensures added == (name !in old(e.zset.scores))
    {
      hide Valid, Lent, ValueOf, DbOver, ZSet.Valid, ZSet.Ok;
      Lend(e);
      ghost var parts := e.zset.Repr;
      ghost var moves;
      added, moves := e.zset.Insert(name, score);
      e.zset.OkIsValid();
      Return(e, parts);
      SetValue(e);
    }

    /** Look a name up in an entry's sorted set and delete its node. */
    method ZRemove(e: Entry, name: Bytes) returns (removed: bool)
      requires Valid() && Has(e) && e.isZSet
      modifies this`values, this`zparts, e.zset.Repr
      ensures Valid() && fresh(zparts - old(zparts))
      ensures values == old(values)[e.key := SetV(old(e.zset.scores) - {name})]
      ensures removed == (name in old(e.zset.scores))
    {
      hide Valid, Lent, ValueOf, DbOver, ZSet.Valid, ZSet.Ok;
      Lend(e);
      ghost var parts := e.zset.Repr;
      removed := e.zset.RemoveName(name);
      e.zset.OkIsValid();
      Return(e, parts);
      SetValue(e);
    }

    /** Look a name up in an entry's sorted set: its score and its rank. */
    method ZLookup(e: Entry, name: Bytes) returns (r: ZNode?)
      requires Valid() && Has(e) && e.isZSet
      modifies this`values, this`zparts, e.zset.Repr
      ensures Valid() && fresh(zparts - old(zparts)) && values == old(values)
      ensures e.zset.scores == old(e.zset.scores) && e.zset.Valid()
      ensures r == null <==> name !in e.zset.scores
      ensures r != null ==> r in e.zset.nodes && r.Pair() == P(e.zset.scores[name], name)
    {
      hide Valid, Lent, ValueOf, DbOver, ZSet.Valid, ZSet.Ok;
      Lend(e);
      SetValue(e);
      ghost var parts := e.zset.Repr;
      r := e.zset.Find(name);
      e.zset.OkIsValid();
      SetValue(e);
      Return(e, parts);
      assert values == old(values);
    }

    /** The value that an entry of the store holds. */
    lemma ValueAt(e: Entry)
      requires Valid() && Has(e)
      ensures e.key in values && values[e.key] == if e.isZSet then SetV(e.zset.scores) else StrV(e.str)
      ensures e in live && e in core && e.zset.Valid() && e.zset.Repr <= zparts
    {
      hide ZSet.Valid, Lent;
      Lend(e);
    }

    /** The timer of an entry of the store. */
    lemma TimerOf(e: Entry)
      requires Valid() && Has(e)
      ensures e.heapIdx == -1 <==> e.key !in Deadlines()
      ensures e.key in Deadlines() ==> 0 <= e.heapIdx < |heap.items| && heap.items[e.heapIdx].val == Deadlines()[e.key]
    {
      hide Heap.Valid, ZSetsOver, ValuesOver, DbOver;
      assert e in entries.Values;
      if e in heap.due { heap.ItemOf(e); }
    }

    /** hm_size and hm_foreach over the key index. */
    method VisitKeys() returns (n: nat, ks: seq<Bytes>)
      requires DbOver(entries)
      ensures n == |ks| && NoDup(ks) && Elems(ks) == entries.Keys
    {
      hide HMap.Valid, Keyed, OwnKeys;
      n := db.Size();
      var visited, all := db.ForEach(_ => true);
      VisitedKeys(visited);
      ks := seq(|visited|, i requires 0 <= i < |visited| => visited[i].key);
    }

    lemma {:induction false} VisitedKeys(visited: seq<EntryHN>)
      requires DbOver(entries) && NoDup(visited) && Elems(visited) == db.Nodes()
      ensures var ks := seq(|visited|, i requires 0 <= i < |visited| => visited[i].key);
              NoDup(ks) && Elems(ks) == entries.Keys
    {
      hide HMap.Valid, OwnKeys;
      var ks := seq(|visited|, i requires 0 <= i < |visited| => visited[i].key);
      assert forall i :: 0 <= i < |visited| ==> visited[i] in Elems(visited);
      forall k | k in entries ensures k in Elems(ks) {
        assert hashed[k] in Elems(visited);
        var i :| 0 <= i < |visited| && visited[i] == hashed[k];
        assert ks[i] == k;
      }
    }

    // ----- the end of an entry -----

    /** hm_delete by key. */
    method DbRemove(key: Bytes) returns (e: Entry?)
      requires DbOver(entries) && this !in db.parts
      modifies this`hashed, db.parts, db.Nodes()
      ensures e == if key in entries then entries[key] else null
      ensures DbOver(if e == null then entries else entries - {key}) && (e != null ==> e.key == key)
      ensures fresh(db.parts - old(db.parts)) && db.Nodes() <= old(db.Nodes())
    {
      hide HMap.Valid, Keyed, StrHash;
      KeyMatch(key);
      if key in entries { KeyedRemove(db.Nodes(), entries, hashed, key); }
      var hcode := ComputeHash(key);
      var found := db.Delete(hcode, (h: EntryHN) => h.key == key);
      e := if found == null then null else found.owner;
      if found != null {
        hashed := hashed - {key};
      }
    }

    /** hm_delete of a known entry by identity: it is always found. */
    method DbRemoveEntry(e: Entry)
      requires DbOver(entries) && this !in db.parts && Has(e)
      modifies this`hashed, db.parts, db.Nodes()
      ensures DbOver(entries - {e.key})
      ensures fresh(db.parts - old(db.parts)) && db.Nodes() <= old(db.Nodes())
    {
      hide HMap.Valid, Keyed, StrHash;
      KeyMatch(e.key);
      OwnerMatch(e);
      KeyedRemove(db.Nodes(), entries, hashed, e.key);
      var hcode := ComputeHash(e.key);
      var found := db.Delete(hcode, (h: EntryHN) => h.owner == e);
      assert found != null && found == hashed[e.key];
      hashed := hashed - {e.key};
    }

    lemma OwnerMatch(e: Entry)
      requires DbOver(entries) && Has(e)
      ensures forall h <- db.Nodes() :: h.owner == e ==> e.key in hashed && h == hashed[e.key]
    {
    }

    /** The ghost record without an entry, which is now in transit. */
    ghost method Unlist(e: Entry)
      requires Body({}) && Has(e) && this !in zparts && forall k <- entries :: k != e.key ==> entries[k] != e
      modifies this`entries, this`values
      ensures Body({e}) && entries == old(entries) - {e.key} && values == old(values) - {e.key}
      ensures e !in entries.Values
    {
      hide Heap.Valid, ZSetsOver, ValuesOver;
      ValuesRemove(entries, e.key);
      ValuesTake(entries, values, zparts, e.key, {});
      assert zparts - {} == zparts;
      assert entries.Values + {} == entries.Values - {e} + {e};
      entries, values := entries - {e.key}, values - {e.key};
    }

    /** The store but for the parts of an entry in transit. */
    ghost predicate AllBut(e: Entry, parts: set<object>)
      reads this, heap, entries.Values`heapIdx, entries.Values`str, zparts - parts
      reads db, db.newer, db.older, db.newer.tab, db.older.tab, db.newer.nodes, db.older.nodes
    {
      && Apart() && DbOver(entries) && HeapOver(entries.Values) && Owned({e})
      && ZSetsOver(live - {e}, zparts - parts) && ValuesOver(entries, values, zparts - parts)
    }

    /** An entry on its way out, with no timer left. */
    ghost predicate Leaving(e: Entry)
      reads this, heap, entries.Values, zparts
      reads db, db.newer, db.older, db.newer.tab, db.older.tab, db.newer.nodes, db.older.nodes
    {
      && Apart() && DbOver(entries) && HeapOver(entries.Values) && ZSetsOver(live, zparts)
      && ValuesOver(entries, values, zparts) && Owned({e})
    }

    lemma Withdraw(e: Entry)
      requires Leaving(e)
      ensures AllBut(e, e.zset.Repr) && e.zset.Valid() && e.zset.Repr <= zparts && Apart() && DbOver(entries)
      ensures entries.Values <= live
    {
      hide DbOver, HeapOver, ZSetsOver, ValuesOver, ZSet.Valid, ZSet.Ok;
      ZSetsTake(live, zparts, e);
      ValuesKeepOff(entries, values, zparts, e.zset.Repr);
      e.zset.OkIsValid();
    }

    /** The entry is no longer live. */
    ghost method Bury(e: Entry, parts: set<object>)
      requires AllBut(e, parts)
      modifies this`live, this`freed, this`zparts
      ensures Valid() && live == old(live) - {e} && freed == old(freed) + [e] && zparts == old(zparts) - parts
    {
      hide DbOver, HeapOver, ZSetsOver, ValuesOver;
      NoDupAppend(freed, [e]);
      ElemsConcat(freed, [e]);
      live, freed, zparts := live - {e}, freed + [e], zparts - parts;
      assert entries.Values + {} == entries.Values;
    }

    /** entry_del_sync: clear the sorted set and free the entry. */
    method Destroy(e: Entry)
      requires Leaving(e)
      modifies this`live, this`freed, this`zparts, e.zset.Repr
      ensures Valid() && live == old(live) - {e} && freed == old(freed) + [e] && zparts <= old(zparts)
    {
      hide Valid, Body, AllBut, Leaving, ZSet.Valid, DbOver;
      Withdraw(e);
      ghost var parts := e.zset.Repr;
      if e.isZSet {
        var nodes := e.zset.Clear();
      }
      Bury(e, parts);
    }

    lemma HasLeft(e: Entry)
      requires Apart() && DbOver(entries) && Body({e}) && e !in heap.due
      ensures Leaving(e)
    {
    }

    lemma HeapShrink(e: Entry)
      requires HeapOver(entries.Values + {e}) && e !in heap.due
      ensures HeapOver(entries.Values + {})
    {
    }

    /** entry_remove_ttl, for an entry that has left the key index. */
    method Disarm(e: Entry)
      requires Apart() && DbOver(entries) && Body({e})
      modifies heap, heap.due.Keys`heapIdx, e`heapIdx
      ensures Apart() && DbOver(entries) && Body({e}) && heap.due == old(heap.due) - {e}
      ensures queue == old(queue) && live == old(live) && freed == old(freed)
      ensures entries == old(entries) && values == old(values) && core == old(core) && zparts == old(zparts)
    {
      hide ZSetsOver, ValuesOver, HeapOver, DbOver;
      HeapClear(e, entries.Values + {e});
    }

    /** thread_pool_queue, as far as the queue is concerned. */
    method Enqueue(e: Entry)
      requires Apart() && DbOver(entries) && Body({e}) && e !in heap.due
      modifies this`queue
      ensures Valid() && queue == old(queue) + [e]
    {
      hide ZSetsOver, ValuesOver, HeapOver, DbOver;
      HeapShrink(e);
      NoDupAppend(queue, [e]);
      ElemsConcat(queue, [e]);
      queue := queue + [e];
    }

    lemma SetOf(e: Entry)
      requires Body({e})
      ensures e.zset.Valid() && e.zset.Repr <= zparts
    {
      hide ZSet.Valid, ZSet.Ok;
      ZSetsTake(live, zparts, e);
      e.zset.OkIsValid();
    }

    /** A large sorted set is left to a worker. */
    ghost predicate Large(e: Entry)
      reads e.zset
    {
      e.isZSet && |e.zset.scores| > LARGE_ZSET_SIZE
    }

    /** entry_del: disarm the timer, then destroy the entry or queue it for a worker. */
    method EntryDel(e: Entry)
      requires Apart() && DbOver(entries) && Body({e}) && e in live
      modifies heap, heap.due.Keys`heapIdx, e`heapIdx, this`queue, this`live, this`freed, this`zparts, e.zset.Repr
      ensures Valid() && heap.due == old(heap.due) - {e}
      ensures if old(Large(e)) then queue == old(queue) + [e] && freed == old(freed) && live == old(live)
              else queue == old(queue) && freed == old(freed) + [e] && live == old(live) - {e}
      ensures zparts <= old(zparts)
      ensures core == old(core) && entries == old(entries) && values == old(values)
    {
      hide Leaving, HMap.Valid, ZSet.HashOk, ZSet.TreeOk, ZSet.ScoresOk, Body, DbOver, ZSet.Valid, ZSet.Ok;
      SetOf(e);
      Disarm(e);
      SetOf(e);
      e.zset.SizeIsCount();
      var size := if e.isZSet then e.zset.hmap.Size() else 0;
      if size > LARGE_ZSET_SIZE {
        Enqueue(e);
      } else {
        HasLeft(e);
        Destroy(e);
      }
    }

    /** Take the hash node of a key, if there is one, out of the index. */
    method DropKey(key: Bytes) returns (e: Entry?)
      requires Apart() && DbOver(entries) && Body({})
      modifies this`hashed, this`core, db.parts, db.Nodes()
      ensures Apart() && Body({}) && old(core) <= core && fresh(core - old(core))
      ensures e == (if key in entries then entries[key] else null) && (e != null ==> e.key == key)
      ensures DbOver(if e == null then entries else entries - {key})
      ensures entries == old(entries) && values == old(values) && heap.due == old(heap.due)
      ensures zparts == old(zparts)
    {
      hide DbOver, Body, OwnKeys, Apart;
      BodyParts();
      e := DbRemove(key);
      Cover(db.parts);
    }

    /** New objects of an index that has become smaller. */
    ghost method Cover(more: set<object>)
      requires Body({}) && {this, heap} + live <= core && core + more !! zparts && db.parts + db.Nodes() <= core + more
      requires this !in db.parts && heap !in db.parts && live !! db.parts
      modifies this`core
      ensures Apart() && Body({}) && core == old(core) + more
    {
      hide Body;
      core := core + more;
    }

    /** Take a key out of the index, its entry now in transit. */
    method TakeOut(key: Bytes) returns (e: Entry?)
      requires Valid()
      modifies this`hashed, this`entries, this`values, this`core, db.parts, db.Nodes()
      ensures Apart() && DbOver(entries) && old(core) <= core && fresh(core - old(core))
      ensures heap.due == old(heap.due) && zparts == old(zparts)
      ensures e == null ==> Valid() && key !in old(entries) && values == old(values) && entries == old(entries)
      ensures e != null ==> var x: Entry := e; Body({x}) && e.key == key
      ensures e != null ==> key in old(entries) && old(entries)[key] == e
      ensures e != null ==> values == old(values) - {key} && entries == old(entries) - {key}
    {
      hide DbOver, Body;
      if key in entries { OwnKey(entries[key]); }
      e := DropKey(key);
      if e != null {
        Unlist(e);
      }
    }

    /** The end of an entry that has been taken out of the index. */
    method Discard(e: Entry, ghost es: map<Bytes, Entry>, ghost due: Due, ghost owners: Ledger)
      requires Apart() && DbOver(entries) && Body({e}) && OwnKeys(es) && e.key in es && es[e.key] == e
      requires entries == es - {e.key} && heap.due == due && owners == Owners().(stored := es.Values)
      modifies core, zparts
      ensures Valid() && core == old(core) && zparts <= old(zparts) && values == old(values)
      ensures Deadlines() == DeadlinesOf(es, due) - {e.key}
      ensures Departed(owners, Owners(), {e.key}, if old(Large(e)) then {e.key} else {})
    {
      hide Valid, Body, DbOver, DeadlinesOf, OwnKeys, Large, ZSet.Valid, Departed;
      SetOf(e);
      EntryDel(e);
      DeadlinesRemove(es, due, e);
      OneGone(es, e, owners, Owners(), if old(Large(e)) then {e.key} else {});
    }

    /** exec_del, up to its reply: the key goes with its value and its deadline. */
    method Del(key: Bytes) returns (found: bool)
      requires Valid()
      modifies core, zparts
      ensures Valid() && fresh(core - old(core)) && zparts <= old(zparts)
      ensures found == (key in old(values)) && values == old(values) - {key} && Deadlines() == old(Deadlines()) - {key}
      ensures Departed(old(Owners()), Owners(), {key}, LargeKeys(old(values)))
      ensures !found ==> Owners() == old(Owners())
    {
      hide Valid, Body, DbOver, DeadlinesOf, OwnKeys, Large, ZSet.Valid, Departed, LargeKeys;
      Parts();
      ghost var es, due, owners, large := entries, heap.due, Owners(), LargeKeys(values);
      KeyMatch(key);
      if key in entries { LargeValue(entries[key]); }
      var e := TakeOut(key);
      found := e != null;
      if found {
        ghost var big := Large(e);
        Discard(e, es, due, owners);
        SameLarge(owners, Owners(), key, if big then {e.key} else {}, large);
      } else {
        NoDeadline(es, due, key);
        NoneGone(es, key, owners, large);
      }
    }

    /** Whether an entry is large shows in its value. */
    lemma LargeValue(e: Entry)
      requires Valid() && Has(e)
      ensures Large(e) <==> e.key in LargeKeys(values)
      ensures e.zset in zparts && e.zset !in db.parts + db.Nodes()
    {
      hide ZSet.Valid, DbOver;
      ValueAt(e);
      Parts();
    }

    lemma NoDeadline(es: map<Bytes, Entry>, due: Due, key: Bytes)
      requires key !in es
      ensures DeadlinesOf(es, due) - {key} == DeadlinesOf(es, due)
    {
    }

    // ----- workers -----

    /** consume: a worker takes the first task of the queue. */
    method WorkerTake() returns (e: Entry)
      requires Valid() && queue != []
      modifies this`queue, this`running
      ensures State() == old(State()) && core == old(core) && zparts == old(zparts)
      ensures Valid() && e == old(queue)[0] && Taken(old(Owners()), Owners())
    {
      hide DbOver, HeapOver, ZSetsOver, ValuesOver;
      e := queue[0];
      TakeFirst(queue);
      queue, running := queue[1..], running + {e};
    }

    lemma TakeFirst(s: seq<Entry>)
      requires s != [] && NoDup(s)
      ensures NoDup(s[1..]) && Elems(s) == Elems(s[1..]) + {s[0]} && s[0] !in Elems(s[1..])
    {
    }

    /** entry_del_task_fn: a worker destroys its entry, which nothing else refers to. */
    method WorkerFinish(e: Entry)
      requires Valid() && e in running
      modifies this`running, this`live, this`freed, this`zparts, e.zset.Repr
      ensures Valid() && Owners() == old(Owners()).(running := old(running) - {e}, freed := old(freed) + [e])
      ensures State() == old(State()) && core == old(core) && zparts <= old(zparts)
    {
      hide Valid, Leaving, DeadlinesOf;
      RunningHas(e);
      ElemsConcat(freed, [e]);
      Release(e);
      Destroy(e);
    }

    lemma RunningHas(e: Entry)
      requires Valid() && e in running
      ensures e.zset.Repr <= zparts && e in live && Apart()
    {
      hide ZSet.Ok;
      ZSetsTake(live, zparts, e);
    }

    /** As far as the ghost record goes, the worker is done. */
    method Release(e: Entry)
      requires Valid() && e in running
      modifies this`running
      ensures Leaving(e) && running == old(running) - {e} && e.zset.Repr <= zparts && Apart()
    {
      hide DbOver, HeapOver, ZSetsOver, ValuesOver, ZSet.Ok;
      ZSetsTake(live, zparts, e);
      running := running - {e};
      assert entries.Values + {} == entries.Values;
    }

    // ----- expiry -----

    /** The root of the timer heap is an entry of the store with the earliest deadline. */
    lemma Earliest()
      requires Valid()
      ensures heap.items == [] ==> Deadlines() == map[]
      ensures heap.items != [] ==>
        var e, d := heap.items[0].ref, Deadlines();
        Has(e) && e in live && e.key in d && d[e.key] == heap.items[0].val && forall k <- d :: d[e.key] <= d[k]
    {
      hide ZSetsOver, ValuesOver, Heap.Valid, HMap.Valid, Keyed;
      if heap.items != [] {
        heap.RootIsEarliest();
        var e := heap.items[0].ref;
        assert e in entries.Values;
      }
    }

    /** Take the hash node of a known entry out of the index. */
    method DropNode(e: Entry)
      requires Apart() && DbOver(entries) && Body({}) && Has(e)
      modifies this`hashed, this`core, db.parts, db.Nodes()
      ensures Apart() && DbOver(entries - {e.key}) && Body({}) && old(core) <= core && fresh(core - old(core))
      ensures entries == old(entries) && values == old(values) && heap.due == old(heap.due)
      ensures zparts == old(zparts)
    {
      hide DbOver, Body, OwnKeys, Apart;
      BodyParts();
      DbRemoveEntry(e);
      Cover(db.parts);
    }

    /** Take a known entry out of the index. */
    method TakeOutEntry(e: Entry)
      requires Valid() && Has(e)
      modifies this`hashed, this`entries, this`values, this`core, db.parts, db.Nodes()
      ensures Apart() && DbOver(entries) && Body({e}) && old(core) <= core && fresh(core - old(core))
      ensures heap.due == old(heap.due) && zparts == old(zparts)
      ensures values == old(values) - {e.key} && entries == old(entries) - {e.key}
    {
      hide Valid, DbOver, Body, OwnKeys;
      Parts();
      OwnKey(e);
      DropNode(e);
      Unlist(e);
    }

    /** Delete a known entry: hm_delete always finds it. */
    method DelEntry(e: Entry)
      requires Valid() && Has(e)
      modifies core, zparts
      ensures Valid() && fresh(core - old(core)) && zparts <= old(zparts)
      ensures values == old(values) - {e.key} && Deadlines() == old(Deadlines()) - {e.key}
      ensures Departed(old(Owners()), Owners(), {e.key}, LargeKeys(old(values)))
    {
      hide Valid, Body, DbOver, DeadlinesOf, OwnKeys, Large, ZSet.Valid, Departed, LargeKeys;
      Parts();
      ghost var es, due, owners, large := entries, heap.due, Owners(), LargeKeys(values);
      LargeValue(e);
      TakeOutEntry(e);
      ghost var big := Large(e);
      Discard(e, es, due, owners);
      SameLarge(owners, Owners(), e.key, if big then {e.key} else {}, large);
    }

    /** Remove the entry at the root of the timer heap. */
    method ExpireOne()
      requires Valid() && heap.items != []
      modifies core, zparts
      ensures Valid() && fresh(core - old(core)) && zparts <= old(zparts)
      ensures values == old(values) - {old(heap.items[0].ref.key)}
      ensures Deadlines() == old(Deadlines()) - {old(heap.items[0].ref.key)}
      ensures Departed(old(Owners()), Owners(), {old(heap.items[0].ref.key)}, LargeKeys(old(values)))
    {
      hide Valid, Deadlines, LargeKeys, Departed;
      Earliest();
      DelEntry(heap.items[0].ref);
    }

    lemma NextGone(d: map<Bytes, nat>, gone: set<Bytes>, now: nat, k: Bytes)
      requires EarliestGone(d, gone, now) && k in d && k !in gone && d[k] < now
      requires forall j <- d - gone :: d[k] <= d[j]
      ensures EarliestGone(d, gone + {k}, now)
      ensures d - gone - {k} == d - (gone + {k})
    {
    }

    lemma AllGone(d: map<Bytes, nat>, gone: set<Bytes>, now: nat, n: nat)
      requires EarliestGone(d, gone, now) && |gone| == n <= MAX_WORKS
      requires n < MAX_WORKS ==> forall k <- d - gone :: d[k] >= now
      ensures n == Min(MAX_WORKS, |Expired(d, now)|)
    {
      if n < MAX_WORKS {
        assert forall k <- Expired(d, now) :: k !in gone ==> k in d - gone;
        assert gone == Expired(d, now);
      } else {
        SubsetSize(gone, Expired(d, now));
      }
    }

    /** The TTL pass of process_timers: the earliest expired entries go, at most MAX_WORKS of them. */
    method ExpireEntries(now: nat) returns (nworks: nat, ghost gone: set<Bytes>)
      requires Valid()
      modifies core, zparts
      ensures Valid() && fresh(core - old(core)) && zparts <= old(zparts)
      ensures nworks == |gone| && ExpiryStep(old(State()), State(), now, gone)
      ensures Departed(old(Owners()), Owners(), gone, LargeKeys(old(values)))
    {
      hide Valid, DeadlinesOf, Deadlines, EarliestGone, Owners, Departed, LargeKeys;
      nworks, gone := 0, {};
      ghost var d, v, owners := Deadlines(), values, Owners();
      NonePassed(owners, LargeKeys(v));
      NoneExpired(d, now);
      Earliest();
      while heap.items != [] && heap.items[0].val < now
        invariant Valid() && fresh(core - old(core)) && zparts <= old(zparts)
        invariant values == v - gone && Deadlines() == d - gone && EarliestGone(d, gone, now)
        invariant nworks == |gone| < MAX_WORKS && Departed(owners, Owners(), gone, LargeKeys(v))
        decreases MAX_WORKS - nworks
      {
        Earliest();
        ghost var k := heap.items[0].ref.key;
        NextGone(d, gone, now, k);
        ghost var before := Owners();
        ExpireOne();
        StillLarge(v, gone, k);
        MoreDeparted(owners, before, Owners(), gone, k, LargeKeys(v), LargeKeys(v - gone));
        assert v - gone - {k} == v - (gone + {k});
        gone := gone + {k};
        nworks := nworks + 1;
        if nworks == MAX_WORKS {
          break;
        }
      }
      Earliest();
      AllGone(d, gone, now, nworks);
    }

    lemma StillLarge(v: map<Bytes, Value>, gone: set<Bytes>, k: Bytes)
      requires k !in gone
      ensures k in LargeKeys(v - gone) <==> k in LargeKeys(v)
    {
    }

    lemma NoneExpired(d: map<Bytes, nat>, now: nat)
      ensures EarliestGone(d, {}, now) && d - {} == d
    {
    }

    // ----- for callers that know the store by its footprint -----

    /** The TTL pass. */
    method Expire(now: nat) returns (ghost gone: set<Bytes>)
      requires Ok()
      modifies core, zparts
      ensures Ok() && fresh(core - old(core)) && zparts <= old(zparts)
      ensures Departed(old(Owners()), Owners(), gone, LargeKeys(old(State()).values))
      ensures ExpiryStep(old(State()), State(), now, gone)
    {
      hide Valid, Ok, Deadlines, ExpiryStep, Owners, Departed, LargeKeys;
      OkIsValid();
      var nworks;
      nworks, gone := ExpireEntries(now);
      OkIsValid();
    }

    /** A worker takes a task, if there is one. */
    method Take()
      requires Ok()
      modifies core
      ensures Ok() && core == old(core) && zparts == old(zparts) && State() == old(State())
      ensures Taken(old(Owners()), Owners())
    {
      hide Valid, Ok, Deadlines, Apart, DbOver, Body;
      OkIsValid();
      if queue != [] {
        var e := WorkerTake();
      }
      OkIsValid();
    }

    /** Some worker finishes the task in its hands, if any has one. */
    method Finish()
      requires Ok()
      modifies core, zparts
      ensures Ok() && core == old(core) && zparts <= old(zparts) && State() == old(State())
      ensures Finished(old(Owners()), Owners())
    {
      hide Valid, Ok, Deadlines;
      OkIsValid();
      if running != {} {
        var e :| e in running;
        RunningHas(e);
        WorkerFinish(e);
      }
      OkIsValid();
    }

    /** Every entry ever created is in exactly one place, and freed at most once. */
    lemma Partition()
      requires Ok()
      ensures Accounted(Owners(), values.Keys) && forall e <- heap.due :: e in Owners().stored
    {
      hide DbOver, ZSetsOver, ValuesOver;
    }
  }
}
