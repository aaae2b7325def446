/**
 * The hash map built from two tables with progressive rehashing: the older one is drained into the
 * newer, a few keys at a time, by every insertion, lookup and deletion.
 */
module HashMap {
  import opened Seqs
  import opened HashTable

  const MAX_LOAD_FACTOR := 8
  const REHASH_WORK := 128

  function Min(a: nat, b: nat): nat { if a < b then a else b }

  /**
   * With total keys in all, left of them still in an old table of n slots that was full when the
   * migration began: every key added since is paid for by REHASH_WORK keys migrated.
   */
  predicate Paid(total: int, left: int, n: int) {
    REHASH_WORK * (total - MAX_LOAD_FACTOR * n + 1) + left <= MAX_LOAD_FACTOR * n
  }

  /** Paid bounds the load: at most 8n + n/16 keys, far below the new table's threshold of 16n. */
  lemma PaidBoundsLoad(total: nat, left: nat, n: nat)
    requires Paid(total, left, n) && n > 0
    ensures 16 * total < 16 * (8 * n) + n
    ensures total + 1 < 8 * (2 * n)
  {
  }

  /** A batch of migrated keys pays for the one key added before it. */
  lemma BatchPays(total: nat, left: nat, n: nat)
    requires n > 0 && Paid(total - 1, left, n)
    ensures left > REHASH_WORK ==> Paid(total, left - REHASH_WORK, n)
    ensures total < MAX_LOAD_FACTOR * (2 * n)
  {
  }

  /** No node is left in the slots below pos of a table with n slots. */
  ghost predicate Drained<V>(nodes: set<HNode<V>>, n: nat, pos: nat)
    requires n > 0
  {
    forall x <- nodes :: pos <= x.hcode % n
  }

  lemma DrainedLess<V>(nodes: set<HNode<V>>, fewer: set<HNode<V>>, n: nat, pos: nat)
    requires n > 0 && fewer <= nodes && Drained(nodes, n, pos)
    ensures Drained(fewer, n, pos)
  {
  }

  class HMap<V> {
    var newer: HTab<V>
    var older: HTab<V>
    var migratePos: nat
    ghost var skipped: nat        // empty slots skipped since the migration began
    ghost var parts: set<object>  // the objects the map has been made of, its nodes aside

    ghost function Nodes(): set<HNode<V>>
      reads this, newer, older
    {
      newer.nodes + older.nodes
    }

    /** The two tables are sound and disjoint, and the slots below migratePos are drained. */
    ghost predicate Sound()
      reads this, newer, older, newer.tab, older.tab, newer.nodes, older.nodes
      ensures Sound() ==> newer.Valid() && older.Valid() && {this, newer, older} <= parts
    {
      && {this, newer, older} <= parts && (newer.tab != null ==> newer.tab in parts) &&
          (older.tab != null ==> older.tab in parts)
      && (newer.tab != null ==> newer.mask >= 3)
      && newer != older && newer.Valid() && older.Valid() && newer.nodes !! older.nodes
      && (older.tab != null ==>
           && newer.tab != null && newer.tab != older.tab && older.mask >= 3 && newer.mask + 1 == 2 * (older.mask + 1)
           && migratePos <= older.mask + 1 && skipped == migratePos && Drained(older.nodes, older.mask + 1, migratePos))
    }

    /** The load bound: below the threshold when nothing migrates, paid for while something does. */
    ghost predicate Light()
      reads this, newer, older
    {
      && (newer.tab != null && older.tab == null ==> newer.size < MAX_LOAD_FACTOR * (newer.mask + 1))
      && (older.tab != null ==> Paid(newer.size + older.size, older.size, older.mask + 1))
    }

    /** Between adding a key and migrating a batch: the last key is not yet paid for. */
    ghost predicate Owing()
      reads this, newer, older
    {
      && (newer.tab != null && older.tab == null ==> newer.size < MAX_LOAD_FACTOR * (newer.mask + 1))
      && (older.tab != null ==> Paid(newer.size + older.size - 1, older.size, older.mask + 1))
    }

    ghost predicate Valid()
      reads this, newer, older, newer.tab, older.tab, newer.nodes, older.nodes
      ensures Valid() ==> {this, newer, older} <= parts
      ensures Valid() ==> (newer.tab != null ==> newer.tab in parts) && (older.tab != null ==> older.tab in parts)
    {
      Sound() && Light()
    }

    /** HMap{} */
    constructor ()
      ensures Valid() && Nodes() == {} && fresh(parts)
    {
      newer := new HTab.Empty();
      older := new HTab.Empty();
      migratePos, skipped := 0, 0;
      new;
      parts := {this, newer, older};
    }

    /** hm_size */
    function Size(): nat
      reads this, newer, older
    {
      newer.size + older.size
    }

    lemma SizeIsCount()
      requires Valid()
      ensures Size() == |Nodes()|
    {
    }

    /** Between operations the keys stay below eight for every slot of the newer table. */
    lemma LoadBound()
      requires Valid() && newer.tab != null
      ensures Size() < 8 * (newer.mask + 1)
    {
      if older.tab != null { PaidBoundsLoad(Size(), older.size, older.mask + 1); }
    }

    /** (older, newer) := (newer, a table twice as large); fires exactly at the threshold. */
    method TriggerRehash()
      requires Sound() && older.tab == null && newer.tab != null
      requires newer.size == 8 * (newer.mask + 1)
      modifies this
      ensures Sound() && Nodes() == old(Nodes()) && fresh(parts - old(parts))
      ensures older == old(newer) && older.tab != null && newer.size == 0
      ensures migratePos == 0 && skipped == 0
    {
      hide HTab.Valid, IsPow2;
      Pow2Double(newer.mask + 1);
      older := newer;
      newer := new HTab((older.mask + 1) * 2);
      migratePos, skipped := 0, 0;
      parts := parts + {newer, newer.tab};
    }

    /** Move one key: the head of the first slot not yet drained. */
    method MoveHead()
      requires Sound() && older.tab != null && migratePos <= older.mask && older.tab[migratePos] != null
      modifies parts, Nodes()
      ensures Sound() && Nodes() == old(Nodes()) && parts == old(parts)
      ensures newer == old(newer) && older == old(older) && migratePos == old(migratePos) && skipped == old(skipped)
      ensures older.tab == old(older.tab) && newer.tab == old(newer.tab)
      ensures older.mask == old(older.mask) && newer.mask == old(newer.mask)
      ensures older.size == old(older.size) - 1 && newer.size == old(newer.size) + 1
    {
      hide HTab.Valid, IsPow2, Push, Cut, Drained;
      older.AtSlot(migratePos);
      ghost var was := older.nodes;
      var node := older.Detach(migratePos, null, 0);
      DrainedLess(was, older.nodes, older.mask + 1, migratePos);
      newer.Insert(node);
    }

    /** Move up to REHASH_WORK keys to the newer table, skipping drained slots. */
    method Migrate() returns (ghost skips: nat)
      requires Sound()
      modifies parts, Nodes()
      ensures Sound() && Nodes() == old(Nodes()) && parts == old(parts)
      ensures newer == old(newer) && newer.tab == old(newer.tab) && newer.mask == old(newer.mask)
      ensures older == old(older) && older.tab == old(older.tab) && older.mask == old(older.mask)
      ensures newer.size == old(newer.size) + Min(128, old(older.size))
      ensures older.size == old(older.size) - Min(128, old(older.size))
      ensures migratePos == old(migratePos) + skips && skipped == old(skipped) + skips
    {
      hide HTab.Valid, IsPow2, Push, Cut;
      skips := 0;
      var count := 0;
      while count < REHASH_WORK && older.size > 0
        invariant Sound() && Nodes() == old(Nodes()) && parts == old(parts)
        invariant newer == old(newer) && older == old(older)
        invariant newer.tab == old(newer.tab) && older.tab == old(older.tab)
        invariant newer.mask == old(newer.mask) && older.mask == old(older.mask)
        invariant count <= REHASH_WORK && newer.size == old(newer.size) + count
        invariant older.size == old(older.size) - count
        invariant migratePos == old(migratePos) + skips && skipped == old(skipped) + skips
        decreases older.size, older.mask + 1 - migratePos
      {
        NotDrained();
        if older.tab[migratePos] == null {
          SkipSlot();
          skips := skips + 1;
        } else {
          MoveHead();
          count := count + 1;
        }
      }
    }

    /** While keys are left in the older table, migratePos is one of its slots. */
    lemma NotDrained()
      requires Sound() && older.size > 0
      ensures older.tab != null && migratePos <= older.mask && migratePos < older.tab.Length
    {
      var x :| x in older.nodes;
      assert x.hcode % (older.mask + 1) <= older.mask;
    }

    method SkipSlot()
      requires Sound() && older.tab != null && migratePos <= older.mask && older.tab[migratePos] == null
      modifies this`migratePos, this`skipped
      ensures Sound() && migratePos == old(migratePos) + 1 && skipped == old(skipped) + 1
    {
      hide HTab.Valid, IsPow2;
      older.AtSlot(migratePos);
      migratePos, skipped := migratePos + 1, skipped + 1;
    }

    /** However many calls a migration takes, it skips no more slots than the old table has. */
    lemma SkipBound()
      requires Sound() && older.tab != null
      ensures skipped == migratePos <= older.mask + 1
    {
    }

    /** Migrate a batch of keys; an older table that is empty afterwards is discarded. */
    method ProgressiveRehash() returns (ghost skips: nat)
      requires Sound()
      modifies parts, Nodes()
      ensures Sound() && Nodes() == old(Nodes()) && fresh(parts - old(parts))
      ensures newer == old(newer) && newer.tab == old(newer.tab) && newer.mask == old(newer.mask)
      ensures newer.size == old(newer.size) + Min(128, old(older.size))
      ensures older.size == old(older.size) - Min(128, old(older.size))
      ensures if older.size == 0 then older.tab == null
              else older == old(older) && older.tab != null && older.mask == old(older.mask)
                   && migratePos >= old(migratePos)
      ensures migratePos == old(migratePos) + skips && skipped == old(skipped) + skips
      ensures old(older.tab) != null ==> skipped <= old(older.mask) + 1
      ensures old(Owing()) ==> Light()
    {
      hide HTab.Valid, IsPow2, Drained;
      if older.tab != null && Owing() {
        BatchPays(newer.size + older.size, older.size, older.mask + 1);
      }
      skips := Migrate();
      if older.size == 0 && older.tab != null {
        SkipBound();
        DropOlder();
      }
    }

    /** Discard an older table that has been emptied. */
    method DropOlder()
      requires Sound() && older.size == 0
      modifies this
      ensures Sound() && Nodes() == old(Nodes()) && fresh(parts - old(parts))
      ensures newer == old(newer) && older.tab == null && older.size == 0
      ensures migratePos == old(migratePos) && skipped == old(skipped)
    {
      hide HTab.Valid, IsPow2, Drained;
      NoNodes(older);
      older := new HTab.Empty();
      parts := parts + {older};
    }

    lemma NoNodes(t: HTab<V>)
      requires t.Valid() && t.size == 0
      ensures t.nodes == {}
    {
    }

    /** Init the newer table if there is none. */
    method EnsureNewer()
      requires Valid()
      modifies this
      ensures Valid() && Nodes() == old(Nodes()) && fresh(parts - old(parts))
      ensures newer.tab != null && newer.mask == (if old(newer.tab) == null then 3 else old(newer.mask))
    {
      hide HTab.Valid;
      if newer.tab == null {
        newer := new HTab(4);
        parts := parts + {newer, newer.tab};
      }
    }

    /** htab_insert into the newer table. */
    method PushNewer(node: HNode<V>)
      requires Sound() && node !in Nodes() && newer.tab != null
      modifies parts, Nodes(), node
      ensures Sound() && Nodes() == old(Nodes()) + {node} && parts == old(parts)
      ensures newer.tab != null && newer.size == old(newer.size) + 1 && newer.mask == old(newer.mask)
      ensures older.tab == old(older.tab) && older.size == old(older.size) && older.mask == old(older.mask)
    {
      hide HTab.Valid, Push, IsPow2, Drained;
      newer.Insert(node);
    }

    /** A newer table that has reached its threshold starts a new migration, unless one is under way. */
    method CheckThreshold()
      requires Sound() && newer.tab != null
      requires older.tab == null ==> newer.size <= MAX_LOAD_FACTOR * (newer.mask + 1)
      requires older.tab != null ==> Paid(newer.size + older.size - 1, older.size, older.mask + 1)
      modifies this
      ensures Sound() && Owing() && Nodes() == old(Nodes()) && fresh(parts - old(parts))
    {
      hide HTab.Valid, IsPow2, Drained;
      if older.tab == null {
        var threshold := (newer.mask + 1) * MAX_LOAD_FACTOR;
        if newer.size >= threshold {
          TriggerRehash();
        }
      }
    }

    /** Add to the newer table; a full table starts a new migration. */
    method InsertNewer(node: HNode<V>)
      requires Valid() && node !in Nodes() && newer.tab != null
      modifies parts, Nodes(), node
      ensures Sound() && Owing() && Nodes() == old(Nodes()) + {node} && fresh(parts - old(parts))
    {
      hide HTab.Valid, Sound;
      PushNewer(node);
      CheckThreshold();
    }

    method Insert(node: HNode<V>)
      requires Valid() && node !in Nodes()
      modifies parts, Nodes(), node
      ensures Valid() && Nodes() == old(Nodes()) + {node} && fresh(parts - old(parts))
    {
      hide HTab.Valid, Sound, Light, Owing, Nodes;
      EnsureNewer();
      ghost var first := parts;
      InsertNewer(node);
      assert parts - old(parts) <= (parts - first) + (first - old(parts));
      ghost var mid := parts;
      ghost var skips := ProgressiveRehash();
      assert parts - old(parts) <= (parts - mid) + (mid - old(parts));
    }

    /** A sound light map owes nothing. */
    lemma LightOwesNothing()
      requires Valid()
      ensures Owing()
    {
    }

    /** Query both tables, the newer one first. */
    method Find(hcode: nat, eq: HNode<V> -> bool)
      returns (fromNewer: bool, pos: nat, prev: HNode?<V>, r: HNode?<V>, ghost j: nat)
      requires Sound()
      ensures r == null ==> forall x <- Nodes() :: !(x.hcode == hcode && eq(x))
      ensures r != null ==> r.hcode == hcode && eq(r)
      ensures r != null ==> var t := if fromNewer then newer else older;
                            r in t.nodes && t.tab != null && t.IsLink(pos, prev, j) && t.chains[pos][j] == r
    {
      hide HTab.Valid, IsPow2, Sound;
      fromNewer := true;
      pos, prev, r, j := newer.Lookup(hcode, eq);
      if r == null {
        fromNewer := false;
        pos, prev, r, j := older.Lookup(hcode, eq);
      }
    }

    method Lookup(hcode: nat, eq: HNode<V> -> bool) returns (r: HNode?<V>)
      requires Valid()
      modifies parts, Nodes()
      ensures Valid() && Nodes() == old(Nodes()) && fresh(parts - old(parts))
      ensures older.size == old(older.size) - Min(128, old(older.size))
      ensures r == null ==> forall x <- Nodes() :: !(x.hcode == hcode && eq(x))
      ensures r != null ==> r in Nodes() && r.hcode == hcode && eq(r)
    {
      hide HTab.Valid, IsPow2, Sound, Light, Owing;
      LightOwesNothing();
      ghost var skips := ProgressiveRehash();
      ghost var j;
      var fromNewer, pos, prev;
      fromNewer, pos, prev, r, j := Find(hcode, eq);
    }

    /** Take the node that a link of the newer table leads to out of the map. */
    method RemoveNewer(pos: nat, prev: HNode?<V>, ghost j: nat) returns (r: HNode<V>)
      requires Valid() && newer.tab != null && newer.IsLink(pos, prev, j)
      modifies parts, Nodes()
      ensures Valid() && parts == old(parts) && Nodes() == old(Nodes()) - {r}
      ensures r == old(newer.chains[pos][j]) && older.size == old(older.size)
    {
      hide HTab.Valid, IsPow2, Cut, Drained;
      r := newer.Detach(pos, prev, j);
    }

    method RemoveOlder(pos: nat, prev: HNode?<V>, ghost j: nat) returns (r: HNode<V>)
      requires Valid() && older.tab != null && older.IsLink(pos, prev, j)
      modifies parts, Nodes()
      ensures Valid() && parts == old(parts) && Nodes() == old(Nodes()) - {r}
      ensures r == old(older.chains[pos][j]) && older.size == old(older.size) - 1
    {
      hide HTab.Valid, IsPow2, Cut;
      r := older.Detach(pos, prev, j);
    }

    method Delete(hcode: nat, eq: HNode<V> -> bool) returns (r: HNode?<V>)
      requires Valid()
      modifies parts, Nodes()
      ensures Valid() && fresh(parts - old(parts))
      ensures older.size <= old(older.size) - Min(128, old(older.size))
      ensures r == null ==> Nodes() == old(Nodes()) && forall x <- Nodes() :: !(x.hcode == hcode && eq(x))
      ensures r != null ==> r in old(Nodes()) && r.hcode == hcode && eq(r) && Nodes() == old(Nodes()) - {r}
    {
      hide HTab.Valid, IsPow2, Sound, Light, Owing, Cut;
      LightOwesNothing();
      ghost var skips := ProgressiveRehash();
      ghost var j;
      var fromNewer, pos, prev;
      fromNewer, pos, prev, r, j := Find(hcode, eq);
      if r != null {
        if fromNewer {
          r := RemoveNewer(pos, prev, j);
        } else {
          r := RemoveOlder(pos, prev, j);
        }
      }
    }

    /** hm_foreach: the newer table first, then the older unless the callback has ended the visit. */
    method ForEach(cb: HNode<V> -> bool) returns (visited: seq<HNode<V>>, all: bool)
      requires Valid()
      ensures NoDup(visited) && Elems(visited) <= Nodes() && VisitedUntil(visited, all, cb)
      ensures all ==> Elems(visited) == Nodes() && |visited| == Size()
    {
      hide Valid, HTab.Valid, VisitedUntil, NoDup, Elems;
      TwoTables();
      visited, all := newer.ForEach(cb);
      NoDupCount(visited);
      if all {
        var more;
        more, all := older.ForEach(cb);
        JoinVisits(visited, more, all, cb);
        visited := visited + more;
        NoDupCount(visited);
      }
      SizeIsCount();
    }

    lemma TwoTables()
      requires Valid()
      ensures newer.Valid() && older.Valid() && newer.nodes !! older.nodes
      ensures (newer.tab != null ==> newer.mask != 0) && (older.tab != null ==> older.mask != 0)
    {
    }

    /** A visit that goes on in the older table. */
    lemma JoinVisits(a: seq<HNode<V>>, b: seq<HNode<V>>, all: bool, cb: HNode<V> -> bool)
      requires NoDup(a) && NoDup(b) && Elems(a) !! Elems(b)
      requires VisitedUntil(a, true, cb) && VisitedUntil(b, all, cb)
      ensures NoDup(a + b) && Elems(a + b) == Elems(a) + Elems(b) && VisitedUntil(a + b, all, cb)
    {
      NoDupAppend(a, b);
      ElemsConcat(a, b);
    }

    /** hm_clear: drop both tables. */
    method Clear()
      requires Valid()
      modifies this
      ensures Valid() && Nodes() == {} && fresh(parts - old(parts))
    {
      hide Bucketed, Chained, IsPow2;
      newer := new HTab.Empty();
      older := new HTab.Empty();
      migratePos, skipped := 0, 0;
      parts := parts + {newer, older};
    }
  }
}
