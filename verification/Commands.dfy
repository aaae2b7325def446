/**
 * The store as the command handlers use it: operations on a key or an entry, each with its
 * effect on the store as a value.
 */
module Commands {
  import opened Names
  import opened Seqs
  import opened PairOrder
  import opened ZSets
  import opened Entries
  import opened Ledgers
  import opened Stores
  import opened Requests
  import A = Abstract

  /** e is the entry of its key, and holds the key's value. */
  ghost predicate Holds(st: Store, e: Entry)
    reads st, e, st.zparts
  {
    && st.Has(e) && e.key in st.values
    && st.values[e.key] == (if e.isZSet && e.zset in st.zparts then A.SetV(e.zset.scores) else A.StrV(e.str))
    && (st.values[e.key].SetV? <==> e.isZSet)
  }

  /** get_entry */
  method Seek(st: Store, key: Bytes) returns (e: Entry?)
    requires st.Ok()
    modifies st.core
    ensures st.Ok() && fresh(st.core - old(st.core)) && st.zparts == old(st.zparts)
    ensures st.State() == old(st.State()) && st.Owners() == old(st.Owners())
    ensures e == null <==> key !in st.values
    ensures e != null ==> e.key == key && Holds(st, e)
  {
    hide Store.Valid, Store.Apart, Store.Body, Store.DbOver, Store.Ok, Store.Deadlines;
    st.OkIsValid();
    e := st.Find(key);
    st.OkIsValid();
    if e != null { st.ValueAt(e); }
  }

  /** A new string or an empty set under a new key. */
  method AddKey(st: Store, key: Bytes, isZSet: bool, str: Bytes) returns (e: Entry)
    requires st.Ok() && key !in st.values
    modifies st.core, st.zparts
    ensures st.Ok() && fresh(st.core - old(st.core)) && fresh(st.zparts - old(st.zparts))
    ensures var value := if isZSet then A.SetV(map[]) else A.StrV(str);
            st.State() == old(st.State()).(values := old(st.values)[key := value])
    ensures Follows(old(st.State()), old(st.Owners()), st.State(), st.Owners())
    ensures e.key == key && e.isZSet == isZSet && Holds(st, e)
  {
    hide Store.Valid, Store.Apart, Store.Body, Store.DbOver, Store.Ok, Store.Deadlines, Store.Owners, Entered, Follows;
    st.OkIsValid();
    ghost var s, owners := st.State(), st.Owners();
    e := st.Add(key, isZSet, str);
    st.OkIsValid();
    assert st.values.Keys == s.values.Keys + {key};
    KeyEnters(s, owners, st.State(), st.Owners(), e);
    st.ValueAt(e);
  }

  /** The entry of a sorted set, a new one if the key is new; null when the key holds a string. */
  method SeekSet(st: Store, key: Bytes) returns (e: Entry?)
    requires st.Ok()
    modifies st.core, st.zparts
    ensures st.Ok() && fresh(st.core - old(st.core)) && fresh(st.zparts - old(st.zparts))
    ensures Follows(old(st.State()), old(st.Owners()), st.State(), st.Owners())
    ensures e == null <==> key in old(st.values) && old(st.values)[key].StrV?
    ensures e != null ==> e.key == key && e.isZSet && Holds(st, e)
    ensures st.State() == if key in old(st.values) then old(st.State())
                          else old(st.State()).(values := old(st.values)[key := A.SetV(map[])])
  {
    hide Store.Ok, Store.Deadlines, Store.Owners, Follows;
    KeysStay(st.State(), st.Owners(), st.State());
    e := Seek(st, key);
    if e == null {
      e := AddKey(st, key, true, []);
    } else if !e.isZSet {
      e := null;
    }
  }

  method PutStr(st: Store, e: Entry, s: Bytes)
    requires st.Ok() && Holds(st, e) && !e.isZSet
    modifies st.core, st.zparts
    ensures st.Ok() && st.core == old(st.core) && st.zparts == old(st.zparts)
    ensures st.State() == old(st.State()).(values := old(st.values)[e.key := A.StrV(s)])
    ensures st.Owners() == old(st.Owners())
  {
    hide Store.Valid, Store.Apart, Store.Body, Store.DbOver, Store.Ok, Store.Deadlines;
    st.OkIsValid();
    st.ValueAt(e);
    st.SetStr(e, s);
    st.OkIsValid();
  }

  method Remove(st: Store, key: Bytes) returns (found: bool)
    requires st.Ok()
    modifies st.core, st.zparts
    ensures st.Ok() && fresh(st.core - old(st.core)) && fresh(st.zparts - old(st.zparts))
    ensures st.State() == A.Del(old(st.State()), key).next && found == (key in old(st.values))
    ensures Follows(old(st.State()), old(st.Owners()), st.State(), st.Owners())
  {
    hide Store.Valid, Store.Deadlines, Store.Ok, Store.Owners, Departed, Follows, A.LargeKeys;
    st.OkIsValid();
    ghost var s, owners := st.State(), st.Owners();
    found := st.Del(key);
    st.OkIsValid();
    assert st.values.Keys == s.values.Keys - {key};
    KeyLeaves(s, owners, st.State(), st.Owners(), key);
  }

  method SetDeadline(st: Store, e: Entry, at: nat)
    requires st.Ok() && Holds(st, e)
    modifies st.core, st.zparts
    ensures st.Ok() && st.core == old(st.core) && st.zparts == old(st.zparts)
    ensures st.State() == old(st.State()).(deadlines := old(st.State()).deadlines[e.key := at])
    ensures st.Owners() == old(st.Owners())
  {
    hide Store.Valid, Store.Apart, Store.Body, Store.DbOver, Store.Ok, Store.Deadlines;
    st.OkIsValid();
    st.ValueAt(e);
    st.SetTtl(e, at);
    st.OkIsValid();
  }

  method ClearDeadline(st: Store, e: Entry)
    requires st.Ok() && Holds(st, e)
    modifies st.core, st.zparts
    ensures st.Ok() && st.core == old(st.core) && st.zparts == old(st.zparts)
    ensures st.State() == old(st.State()).(deadlines := old(st.State()).deadlines - {e.key})
    ensures st.Owners() == old(st.Owners())
  {
    hide Store.Valid, Store.Apart, Store.Body, Store.DbOver, Store.Ok, Store.Deadlines;
    st.OkIsValid();
    st.ValueAt(e);
    st.RemoveTtl(e);
    st.OkIsValid();
  }

  /** The deadline of an entry, if it has one. */
  method GetDeadline(st: Store, e: Entry) returns (r: Option<nat>)
    requires st.Ok() && Holds(st, e)
    ensures r == if e.key in st.State().deadlines then Some(st.State().deadlines[e.key]) else None
  {
    hide Store.Valid, Store.Body, Store.DbOver, Store.Ok;
    st.OkIsValid();
    st.TimerOf(e);
    if e.heapIdx == -1 {
      return None;
    }
    return Some(st.heap.items[e.heapIdx].val);
  }

  method SetScore(st: Store, e: Entry, name: Bytes, score: Score) returns (added: bool)
    requires st.Ok() && Holds(st, e) && e.isZSet
    modifies st.core, st.zparts
    ensures st.Ok() && st.core == old(st.core) && fresh(st.zparts - old(st.zparts))
    ensures var z := old(st.values)[e.key].scores;
            && st.State() == old(st.State()).(values := old(st.values)[e.key := A.SetV(z[name := score])])
            && added == (name !in z)
    ensures st.Owners() == old(st.Owners())
  {
    hide Store.Valid, Store.Body, Store.DbOver, Store.Ok, DeadlinesOf, ZSet.Valid;
    st.OkIsValid();
    st.ValueAt(e);
    added := st.ZInsert(e, name, score);
    st.OkIsValid();
  }

  method RemoveName(st: Store, e: Entry, name: Bytes) returns (removed: bool)
    requires st.Ok() && Holds(st, e) && e.isZSet
    modifies st.core, st.zparts
    ensures st.Ok() && st.core == old(st.core) && fresh(st.zparts - old(st.zparts))
    ensures var z := old(st.values)[e.key].scores;
            && st.State() == old(st.State()).(values := old(st.values)[e.key := A.SetV(z - {name})])
            && removed == (name in z)
    ensures st.Owners() == old(st.Owners())
  {
    hide Store.Valid, Store.Body, Store.DbOver, Store.Ok, DeadlinesOf, ZSet.Valid;
    st.OkIsValid();
    st.ValueAt(e);
    removed := st.ZRemove(e, name);
    st.OkIsValid();
  }

  /** zset_lookup and the node's score. */
  method ScoreOf(st: Store, e: Entry, name: Bytes) returns (r: Option<Score>)
    requires st.Ok() && Holds(st, e) && e.isZSet
    modifies st.core, st.zparts
    ensures st.Ok() && st.core == old(st.core) && fresh(st.zparts - old(st.zparts))
    ensures st.State() == old(st.State()) && st.Owners() == old(st.Owners())
    ensures var z := old(st.values)[e.key].scores; r == if name in z then Some(z[name]) else None
  {
    hide Store.Valid, Store.Body, Store.DbOver, Store.Ok, DeadlinesOf, ZSet.Valid;
    st.OkIsValid();
    st.ValueAt(e);
    var node := st.ZLookup(e, name);
    st.OkIsValid();
    r := if node == null then None else Some(node.score);
  }

  /** zset_lookup and the node's rank. */
  method RankOf(st: Store, e: Entry, name: Bytes) returns (r: Option<nat>)
    requires st.Ok() && Holds(st, e) && e.isZSet
    modifies st.core, st.zparts
    ensures st.Ok() && st.core == old(st.core) && fresh(st.zparts - old(st.zparts))
    ensures st.State() == old(st.State()) && st.Owners() == old(st.Owners())
    ensures var z := old(st.values)[e.key].scores; r == if name in z then Some(Below(z, P(z[name], name))) else None
  {
    hide Store.Valid, Store.Body, Store.DbOver, Store.Ok, DeadlinesOf, ZSet.Valid, Below, Ordered;
    st.OkIsValid();
    st.ValueAt(e);
    var node := st.ZLookup(e, name);
    st.OkIsValid();
    if node == null {
      return None;
    }
    ghost var moves;
    var rank;
    rank, moves := e.zset.Rank(node);
    return Some(rank);
  }

  /** hm_size and hm_foreach: the keys in the order of the visit, and their number. */
  method AllKeys(st: Store) returns (n: nat, ks: seq<Bytes>)
    requires st.Ok()
    ensures n == |ks| && NoDup(ks) && Elems(ks) == st.values.Keys
  {
    hide Store.Valid, Store.Body, Store.DbOver, Store.Ok, ZSet.Valid;
    st.OkIsValid();
    n, ks := st.VisitKeys();
  }
}
