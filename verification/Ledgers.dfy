/**
 * What commands make of the owners of the entries: a new key is a new entry, and the entry of a deleted
 * key goes to the workers when its set is large, and is freed otherwise.
 */
module Ledgers {
  import opened Names
  import opened Seqs
  import opened Entries
  import A = Abstract

  /** The store as a value, and who owns its entries. */
  datatype Stock = Stock(s: A.Abs, o: Ledger)

  /** From s to s' at most one key comes or goes, and its entry with it. */
  ghost predicate Follows(s: A.Abs, o: Ledger, s': A.Abs, o': Ledger) {
    var ks, ks' := s.values.Keys, s'.values.Keys;
    if ks' == ks then o' == o
    else if ks < ks' then exists e <- o'.stored :: ks' == ks + {e.key} && Entered(o, o', e)
    else exists k <- ks :: ks' == ks - {k} && Departed(o, o', {k}, A.LargeKeys(s.values))
  }

  lemma KeysStay(s: A.Abs, o: Ledger, s': A.Abs)
    requires s'.values.Keys == s.values.Keys
    ensures Follows(s, o, s', o)
  {
  }

  lemma KeyEnters(s: A.Abs, o: Ledger, s': A.Abs, o': Ledger, e: Entry)
    requires e.key !in s.values && s'.values.Keys == s.values.Keys + {e.key} && Entered(o, o', e)
    ensures Follows(s, o, s', o')
  {
    hide A.LargeKeys, Departed;
    assert e in o'.stored && s.values.Keys < s'.values.Keys;
  }

  lemma KeyLeaves(s: A.Abs, o: Ledger, s': A.Abs, o': Ledger, k: Bytes)
    requires s'.values.Keys == s.values.Keys - {k} && Departed(o, o', {k}, A.LargeKeys(s.values))
    requires k !in s.values ==> o' == o
    ensures Follows(s, o, s', o')
  {
    hide A.LargeKeys, Departed;
    assert k !in s.values ==> s'.values.Keys == s.values.Keys;
  }

  /** A change of values that keeps the keys. */
  lemma FollowsOn(s: A.Abs, o: Ledger, s1: A.Abs, o': Ledger, s2: A.Abs)
    requires Follows(s, o, s1, o') && s2.values.Keys == s1.values.Keys
    ensures Follows(s, o, s2, o')
  {
  }

  lemma FollowsPassed(s: A.Abs, o: Ledger, s': A.Abs, o': Ledger)
    requires Follows(s, o, s', o')
    ensures Passed(o, o')
  {
    hide A.LargeKeys, Departed, Entered, Passed;
    var ks, ks' := s.values.Keys, s'.values.Keys;
    if ks' == ks {
      NonePassed(o, {});
    } else if ks < ks' {
      var e :| e in o'.stored && Entered(o, o', e);
      EnteredPassed(o, o', e);
    } else {
      var k :| k in ks && Departed(o, o', {k}, A.LargeKeys(s.values));
      DepartedPassed(o, o', {k}, A.LargeKeys(s.values));
    }
  }

  // ----- along a run of commands -----

  ghost function KeysIn(es: seq<Entry>): seq<Bytes> {
    seq(|es|, i requires 0 <= i < |es| => es[i].key)
  }

  ghost function OnlyKey(ks: set<Bytes>): seq<Bytes> {
    if ks == {} then [] else var k :| k in ks; [k]
  }

  /** The keys that a command deletes and whose sets are large, at most one. */
  ghost function QueuedBy(s: A.Abs, s': A.Abs): set<Bytes> {
    (s.values.Keys - s'.values.Keys) * A.LargeKeys(s.values)
  }

  ghost function FreedBy(s: A.Abs, s': A.Abs): set<Bytes> {
    s.values.Keys - s'.values.Keys - A.LargeKeys(s.values)
  }

  /** The keys whose entries a run of commands leaves to the workers, in order. */
  ghost function Queued(states: seq<A.Abs>): seq<Bytes> {
    var n := |states|;
    if n < 2 then [] else Queued(states[..n - 1]) + OnlyKey(QueuedBy(states[n - 2], states[n - 1]))
  }

  /** The keys whose entries it frees. */
  ghost function Freed(states: seq<A.Abs>): seq<Bytes> {
    var n := |states|;
    if n < 2 then [] else Freed(states[..n - 1]) + OnlyKey(FreedBy(states[n - 2], states[n - 1]))
  }

  /** A run of commands hands over exactly these entries; no other is lost, and the workers' are not touched. */
  ghost predicate Handed(states: seq<A.Abs>, o: Ledger, o': Ledger) {
    && Passed(o, o')
    && KeysIn(o'.queue[|o.queue|..]) == Queued(states) && KeysIn(o'.freed[|o.freed|..]) == Freed(states)
  }

  lemma NothingHanded(s: A.Abs, o: Ledger)
    ensures Handed([s], o, o)
  {
  }

  lemma OnlyKeyIs(k: Bytes)
    ensures OnlyKey({k}) == [k] && OnlyKey({}) == []
  {
  }

  /** The one entry of a key. */
  lemma EntryOf(o: Ledger, keys: set<Bytes>, k: Bytes) returns (e: Entry)
    requires Accounted(o, keys) && k in keys
    ensures e in o.stored && e.key == k && forall f <- o.stored :: f.key == k ==> f == e
  {
    e :| e in o.stored && e.key == k;
  }

  lemma OneAppended(s: seq<Entry>, t: seq<Entry>, x: set<Entry>, e: Entry)
    requires Appended(s, t, x)
    ensures x == {} ==> t == s
    ensures x == {e} ==> t == s + [e]
  {
    var u := t[|s|..];
    assert t == s + u;
    NoDupCount(u);
    if u != [] { assert u[0] in Elems(u); }
  }

  /** The keys of the entries that one command hands over. */
  lemma FollowsKeys(s: A.Abs, o: Ledger, s': A.Abs, o': Ledger)
    requires Follows(s, o, s', o') && Accounted(o, s.values.Keys)
    ensures o.queue <= o'.queue && KeysIn(o'.queue[|o.queue|..]) == OnlyKey(QueuedBy(s, s'))
    ensures o.freed <= o'.freed && KeysIn(o'.freed[|o.freed|..]) == OnlyKey(FreedBy(s, s'))
  {
    hide A.LargeKeys, Accounted;
    var ks, ks', large := s.values.Keys, s'.values.Keys, A.LargeKeys(s.values);
    if ks <= ks' {
      assert ks - ks' == {};
    } else {
      var k :| k in ks && ks' == ks - {k} && Departed(o, o', {k}, large);
      var e := EntryOf(o, ks, k);
      OnlyKeyIs(k);
      assert ks - ks' == {k};
      assert Leaving(o, {k}) == {e} && Leaving(o, {}) == {};
      assert {k} * large == (if k in large then {k} else {}) && {k} - large == (if k in large then {} else {k});
      OneAppended(o.queue, o'.queue, if k in large then {e} else {}, e);
      OneAppended(o.freed, o'.freed, if k in large then {} else {e}, e);
    }
  }

  lemma KeysInConcat(a: seq<Entry>, b: seq<Entry>)
    ensures KeysIn(a + b) == KeysIn(a) + KeysIn(b)
  {
  }

  lemma SuffixKeys(a: seq<Entry>, b: seq<Entry>, c: seq<Entry>)
    requires a <= b <= c
    ensures KeysIn(c[|a|..]) == KeysIn(b[|a|..]) + KeysIn(c[|b|..])
  {
    assert c[|a|..] == b[|a|..] + c[|b|..];
    KeysInConcat(b[|a|..], c[|b|..]);
  }

  /** One more command. */
  lemma HandedMore(states: seq<A.Abs>, s: A.Abs, o: Ledger, o1: Ledger, o2: Ledger)
    requires states != [] && Handed(states, o, o1)
    requires var last := states[|states| - 1]; Follows(last, o1, s, o2) && Accounted(o1, last.values.Keys)
    ensures Handed(states + [s], o, o2)
  {
    hide Follows, Accounted, QueuedBy, FreedBy;
    var last, more := states[|states| - 1], states + [s];
    FollowsPassed(last, o1, s, o2);
    FollowsKeys(last, o1, s, o2);
    PassedOn(o, o1, o2);
    SuffixKeys(o.queue, o1.queue, o2.queue);
    SuffixKeys(o.freed, o1.freed, o2.freed);
    assert more[..|more| - 1] == states && more[|more| - 2] == last && more[|more| - 1] == s;
  }
}
