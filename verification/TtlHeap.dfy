/**
 * The timer heap: a min-heap of deadlines in an array, every item of which knows the entry it
 * belongs to, and every such entry the index of its item.
 */
module TtlHeap {
  import opened Entries

  datatype HeapItem = HeapItem(val: nat, ref: Entry)

  type Items = seq<HeapItem>
  type Due = map<Entry, nat>
  type Index = map<Entry, int>

  function Parent(i: nat): nat
    requires i > 0
  {
    (i - 1) / 2
  }

  function Left(i: nat): nat { i * 2 + 1 }

  function Right(i: nat): nat { i * 2 + 2 }

  ghost function IndexOf(es: set<Entry>): Index
    reads es`heapIdx
  {
    map e | e in es :: e.heapIdx
  }

  // ----- heap order -----

  /** The item at i is not smaller than its parent. */
  ghost predicate InOrder(s: Items, i: nat)
    requires 0 < i < |s|
  {
    s[Parent(i)].val <= s[i].val
  }

  ghost predicate MinHeap(s: Items) {
    forall i | 0 < i < |s| :: InOrder(s, i)
  }

  /** The children of pos are not smaller than the parent of pos. */
  ghost predicate Bridged(s: Items, pos: nat) {
    pos > 0 ==> forall i | 0 < i < |s| && Parent(i) == pos :: s[Parent(pos)].val <= s[i].val
  }

  /** A heap in which the item at pos has been replaced by an arbitrary one. */
  ghost predicate Patched(s: Items, pos: nat) {
    (forall i | 0 < i < |s| && i != pos && Parent(i) != pos :: InOrder(s, i)) && Bridged(s, pos)
  }

  /** Only the item at pos may be too small for its place. */
  ghost predicate TooSmall(s: Items, pos: nat) {
    (forall i | 0 < i < |s| && i != pos :: InOrder(s, i)) && Bridged(s, pos)
  }

  /** Only the item at pos may be too large for its place. */
  ghost predicate TooLarge(s: Items, pos: nat) {
    (forall i | 0 < i < |s| && Parent(i) != pos :: InOrder(s, i)) && Bridged(s, pos)
  }

  /** Replacing one item of a heap patches it. */
  lemma ReplacePatches(s: Items, pos: nat, item: HeapItem)
    requires MinHeap(s) && pos < |s|
    ensures Patched(s[pos := item], pos)
  {
    var s' := s[pos := item];
    forall i | 0 < i < |s| && i != pos && Parent(i) != pos ensures InOrder(s', i) { assert InOrder(s, i); }
    if pos > 0 {
      forall i | 0 < i < |s| && Parent(i) == pos ensures s'[Parent(pos)].val <= s'[i].val {
        assert InOrder(s, i) && InOrder(s, pos);
      }
    }
  }

  /** Every item is at least as late as the root. */
  lemma {:induction false} RootIsLeast(s: Items, i: nat)
    requires MinHeap(s) && i < |s|
    ensures s[0].val <= s[i].val
  {
    if i > 0 {
      assert InOrder(s, i);
      RootIsLeast(s, Parent(i));
    }
  }

  /** Whichever way the patched item is out of place, it is out of place that way only. */
  lemma OneDirection(s: Items, pos: nat)
    requires Patched(s, pos) && pos < |s|
    ensures if pos > 0 && s[Parent(pos)].val > s[pos].val then TooSmall(s, pos) else TooLarge(s, pos)
  {
  }

  ghost function Swap(s: Items, a: nat, b: nat): Items
    requires a < |s| && b < |s|
  {
    s[a := s[b]][b := s[a]]
  }

  lemma StepUp(s: Items, pos: nat)
    requires 0 < pos < |s| && TooSmall(s, pos) && s[Parent(pos)].val > s[pos].val
    ensures TooSmall(Swap(s, pos, Parent(pos)), Parent(pos))
  {
    var p, s' := Parent(pos), Swap(s, pos, Parent(pos));
    forall i | 0 < i < |s'| && i != p ensures InOrder(s', i) {
      if i != pos { assert InOrder(s, i); }
    }
    if p > 0 {
      assert InOrder(s, p);
      forall i | 0 < i < |s'| && Parent(i) == p ensures s'[Parent(p)].val <= s'[i].val {
        if i != pos { assert InOrder(s, i); }
      }
    }
  }

  lemma StepDown(s: Items, pos: nat, kid: nat)
    requires pos < |s| && TooLarge(s, pos) && 0 < kid < |s| && Parent(kid) == pos && s[kid].val < s[pos].val
    requires forall i | 0 < i < |s| && Parent(i) == pos :: s[kid].val <= s[i].val
    ensures TooLarge(Swap(s, pos, kid), kid)
  {
  }

  // ----- back-references -----

  /** The items are exactly those of due, and ix gives the place of each. */
  ghost predicate Tracks(s: Items, due: Due, ix: Index) {
    && (forall i | 0 <= i < |s| :: s[i].ref in due && due[s[i].ref] == s[i].val && s[i].ref in ix && ix[s[i].ref] == i)
    && (forall e <- due :: e in ix && 0 <= ix[e] < |s| && s[ix[e]].ref == e)
  }

  lemma TracksSwap(s: Items, due: Due, ix: Index, a: nat, b: nat)
    requires Tracks(s, due, ix) && a < |s| && b < |s| && a != b
    ensures Tracks(Swap(s, a, b), due, ix[s[a].ref := b][s[b].ref := a])
  {
  }

  /** The items after writing item at pos, or at the end when pos is past it. */
  ghost function Put(s: Items, pos: nat, item: HeapItem): Items
    requires pos <= |s|
  {
    if pos < |s| then s[pos := item] else s + [item]
  }

  /** The deadlines after writing item at pos: the entry whose item stood there, if any, has none any more. */
  ghost function Replaced(s: Items, due: Due, pos: nat, item: HeapItem): Due {
    (if pos < |s| then due - {s[pos].ref} else due)[item.ref := item.val]
  }

  lemma TracksPut(s: Items, due: Due, ix: Index, pos: nat, item: HeapItem, ix': Index)
    requires Tracks(s, due, ix) && pos <= |s|
    requires item.ref in due ==> pos < |s| && s[pos].ref == item.ref
    requires forall e <- due :: e in ix && (pos < |s| ==> e != s[pos].ref) ==> e in ix' && ix'[e] == ix[e]
    ensures Tracks(Put(s, pos, item), Replaced(s, due, pos, item), ix'[item.ref := pos])
  {
  }

  /** The last item takes the place of the one at pos. */
  ghost function Fill(s: Items, pos: nat): (r: Items)
    requires pos < |s|
    ensures |r| == |s| - 1
  {
    s[pos := s[|s| - 1]][..|s| - 1]
  }

  /** Of ix', the index of the entries that keep their deadline, only the moved item's is wrong. */
  lemma TracksFill(s: Items, due: Due, ix: Index, pos: nat, ix': Index)
    requires Tracks(s, due, ix) && pos < |s|
    requires forall e <- due :: e != s[pos].ref && e in ix ==> e in ix' && ix'[e] == ix[e]
    ensures var r, due' := Fill(s, pos), due - {s[pos].ref};
            if pos < |r| then r[pos].ref in due' && Tracks(r, due', ix'[r[pos].ref := pos]) else Tracks(r, due', ix')
  {
  }

  lemma FillPatches(s: Items, pos: nat)
    requires MinHeap(s) && pos < |s|
    ensures if pos < |s| - 1 then Patched(Fill(s, pos), pos) else MinHeap(Fill(s, pos))
  {
    var r := Fill(s, pos);
    forall i | 0 < i < |r| && i != pos && Parent(i) != pos ensures InOrder(r, i) { assert InOrder(s, i); }
    if 0 < pos < |r| {
      forall i | 0 < i < |r| && Parent(i) == pos ensures r[Parent(pos)].val <= r[i].val {
        assert InOrder(s, i) && InOrder(s, pos);
      }
    }
    if pos == |r| {
      forall i | 0 < i < |r| ensures InOrder(r, i) { assert InOrder(s, i); }
    }
  }

  lemma AppendPatches(s: Items, item: HeapItem)
    requires MinHeap(s)
    ensures Patched(s + [item], |s|)
  {
    var r := s + [item];
    forall i | 0 < i < |r| && i != |s| && Parent(i) != |s| ensures InOrder(r, i) { assert InOrder(s, i); }
  }

  class Heap {
    var items: Items
    ghost var due: Due  // the deadline of every entry that has one

    ghost predicate Valid()
      reads this, due.Keys`heapIdx
      ensures Valid() ==> |items| == 0 ==> due == map[]
    {
      Tracks(items, due, IndexOf(due.Keys)) && MinHeap(items)
    }

    constructor ()
      ensures Valid() && due == map[] && items == []
    {
      items, due := [], map[];
    }

    /** The items with the one at pos replaced by item. */
    ghost predicate Holding(pos: nat, item: HeapItem)
      reads this, due.Keys`heapIdx
    {
      pos < |items| && item.ref in due && Tracks(items[pos := item], due, IndexOf(due.Keys)[item.ref := pos])
    }

    /** Shift the item at b into the hole at a, leaving the hole at b. */
    method Shift(a: nat, b: nat, ghost item: HeapItem)
      requires Holding(a, item) && b < |items| && a != b
      modifies this`items, due.Keys`heapIdx
      ensures Holding(b, item) && |items| == |old(items)| && items == old(items)[a := old(items)[b]]
      ensures items[b := item] == Swap(old(items)[a := item], a, b)
    {
      ghost var ix: Index, view := IndexOf(due.Keys)[item.ref := a], items[a := item];
      ghost var ix': Index := ix[view[a].ref := b];
      ix' := ix'[view[b].ref := a];
      TracksSwap(view, due, ix, a, b);
      assert view[b] == items[b];
      items := items[a := items[b]];
      items[a].ref.heapIdx := a;
      assert items[b := item] == Swap(view, a, b);
      assert IndexOf(due.Keys)[item.ref := b] == ix';
    }

    /** Put the item into the hole. */
    method Settle(pos: nat, item: HeapItem)
      requires Holding(pos, item)
      modifies this`items, due.Keys`heapIdx
      ensures items == old(items)[pos := item] && Tracks(items, due, IndexOf(due.Keys))
    {
      ghost var ix := IndexOf(due.Keys)[item.ref := pos];
      items := items[pos := item];
      items[pos].ref.heapIdx := pos;
      assert IndexOf(due.Keys) == ix;
    }

    /** sift_up: move the item at pos0 up to where its parent is no larger. */
    method SiftUp(pos0: nat)
      requires pos0 < |items| && Holding(pos0, items[pos0]) && TooSmall(items, pos0)
      modifies this`items, due.Keys`heapIdx
      ensures Valid() && |items| == |old(items)|
    {
      var pos := pos0;
      var item := items[pos];
      assert items[pos := item] == items;
      while pos > 0 && items[Parent(pos)].val > item.val
        invariant Holding(pos, item) && |items| == |old(items)| && TooSmall(items[pos := item], pos)
      {
        StepUp(items[pos := item], pos);
        Shift(pos, Parent(pos), item);
        pos := Parent(pos);
      }
      ghost var view := items[pos := item];
      Settle(pos, item);
      forall i | 0 < i < |view| ensures InOrder(view, i) { }
    }

    /** The smallest child of pos, or pos itself when the item is no larger than its children. */
    method SmallestKid(pos: nat, val: nat) returns (minPos: nat)
      requires pos < |items|
      ensures minPos < |items| && (minPos != pos ==> 0 < minPos && Parent(minPos) == pos && items[minPos].val < val)
      ensures forall i | 0 < i < |items| && Parent(i) == pos ::
                (if minPos == pos then val else items[minPos].val) <= items[i].val
    {
      var l, r := Left(pos), Right(pos);
      minPos := pos;
      var minVal := val;
      if l < |items| && items[l].val < minVal {
        minPos, minVal := l, items[l].val;
      }
      if r < |items| && items[r].val < minVal {
        minPos, minVal := r, items[r].val;
      }
      forall i | 0 < i < |items| && Parent(i) == pos ensures i == l || i == r { }
    }

    /** sift_down: move the item at pos0 down to where its children are no smaller. */
    method SiftDown(pos0: nat)
      requires pos0 < |items| && Holding(pos0, items[pos0]) && TooLarge(items, pos0)
      modifies this`items, due.Keys`heapIdx
      ensures Valid() && |items| == |old(items)|
    {
      var pos := pos0;
      var item := items[pos];
      assert items[pos := item] == items;
      while true
        invariant Holding(pos, item) && |items| == |old(items)| && TooLarge(items[pos := item], pos)
        decreases |items| - pos
      {
        var minPos := SmallestKid(pos, item.val);
        if minPos == pos {
          break;
        }
        StepDown(items[pos := item], pos, minPos);
        Shift(pos, minPos, item);
        pos := minPos;
      }
      ghost var view := items[pos := item];
      Settle(pos, item);
      forall i | 0 < i < |view| ensures InOrder(view, i) { }
    }

    /** sift: one of the two directions is always enough. */
    method Sift(pos: nat)
      requires pos < |items| && Holding(pos, items[pos]) && Patched(items, pos)
      modifies this`items, due.Keys`heapIdx
      ensures Valid()
    {
      OneDirection(items, pos);
      if pos > 0 && items[Parent(pos)].val > items[pos].val {
        SiftUp(pos);
      } else {
        SiftDown(pos);
      }
    }

    /** heap_delete: the entry whose item stands at pos loses its deadline, no other changes. */
    method Delete(pos: nat)
      requires Valid() && pos < |items|
      modifies this, due.Keys`heapIdx
      ensures Valid() && due == old(due) - {old(items[pos].ref)}
      ensures old(items[pos].ref).heapIdx == old(items[pos].ref.heapIdx)
    {
      hide MinHeap, Patched, Tracks;
      ghost var due' := due - {items[pos].ref};
      TracksFill(items, due, IndexOf(due.Keys), pos, IndexOf(due'.Keys));
      FillPatches(items, pos);
      due := due';
      items := items[pos := items[|items| - 1]];
      items := items[..|items| - 1];
      if pos == |items| {
        return;
      }
      assert items[pos := items[pos]] == items;
      Sift(pos);
    }

    /**
     * heap_upsert: the item is added, or takes the place of the one at pos0.  An entry that has an item
     * already can only have that one replaced.
     */
    method Upsert(pos0: int, item: HeapItem)
      requires Valid() && -1 <= pos0 < |items| && (item.ref in due ==> pos0 == item.ref.heapIdx)
      modifies this, due.Keys`heapIdx, item.ref`heapIdx
      ensures Valid() && due == Replaced(old(items), old(due), if pos0 == -1 then |old(items)| else pos0, item)
    {
      hide MinHeap, Patched, Tracks;
      var pos := pos0;
      ghost var at := if pos0 == -1 then |items| else pos0;
      ghost var due' := Replaced(items, due, at, item);
      if item.ref in due { ItemOf(item.ref); }
      TracksPut(items, due, IndexOf(due.Keys), at, item, IndexOf(due'.Keys));
      if 0 <= pos < |items| {
        ReplacePatches(items, pos, item);
        items := items[pos := item];
      } else {
        pos := |items|;
        AppendPatches(items, item);
        items := items + [item];
      }
      due := due';
      assert items[pos := items[pos]] == items;
      Sift(pos);
    }

    /** The item at the root has the earliest deadline of all. */
    lemma RootIsEarliest()
      requires Valid() && items != []
      ensures items[0].ref in due && due[items[0].ref] == items[0].val
      ensures forall e <- due :: items[0].val <= due[e]
    {
      hide MinHeap;
      forall e | e in due ensures items[0].val <= due[e] { RootIsLeast(items, IndexOf(due.Keys)[e]); }
    }

    /** Where an entry's item stands. */
    lemma ItemOf(e: Entry)
      requires Valid() && e in due
      ensures 0 <= e.heapIdx < |items| && items[e.heapIdx] == HeapItem(due[e], e)
    {
    }
  }
}
