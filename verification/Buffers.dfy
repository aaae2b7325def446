/**
 * The sliding byte buffer.
 */
module Buffers {
  import opened Names

  /** The capacity doubled until it reaches need. */
  function Doubled(cap: nat, need: nat): (r: nat)
    requires cap > 0
    ensures r >= need && r >= cap
    ensures r == cap || r < 2 * need
    decreases need - cap
  {
    if cap >= need then cap else Doubled(2 * cap, need)
  }

  /** The capacity that the growing branch allocates for need bytes. */
  function Grown(cap: nat, need: nat): nat { Doubled(if cap == 0 then 64 else cap * 2, need) }

  /** size bytes of data behind a gap, in a memory of cap bytes. */
  datatype Layout = Layout(cap: nat, gap: nat, size: nat)

  /**
   * len bytes more fit: at the back, or after shifting, or in a grown memory, where the gap stays.  A
   * condition on what the append finds.
   */
  predicate RoomFor(l: Layout, len: nat) {
    len + l.size <= l.cap || l.gap + l.size + len <= Grown(l.cap, l.size + len)
  }

  /** The layout once there is room for len bytes: as it was, shifted to the front, or grown with its gap. */
  function MadeRoom(l: Layout, len: nat): Layout {
    if l.gap + l.size + len <= l.cap then l
    else if l.size + len <= l.cap then l.(gap := 0)
    else l.(cap := Grown(l.cap, l.size + len))
  }

  function Appended(l: Layout, len: nat): Layout {
    if len == 0 then l else var m := MadeRoom(l, len); m.(size := l.size + len)
  }

  /** Only the last rest bytes are left, behind a larger gap; without any the data is back at the front. */
  function Trimmed(l: Layout, rest: nat): Layout {
    if rest == 0 then l.(gap := 0, size := 0)
    else if rest >= l.size then l
    else l.(gap := l.gap + l.size - rest, size := rest)
  }

  /**
   * The capacity stays while the bytes fit it, and then the data moves to the front if there is no room behind it;
   * else it is doubled, from 64 on, as often as it takes, and the gap stays.
   */
  lemma CapacityMeans(l: Layout, len: nat)
    requires l.gap + l.size <= l.cap && len > 0
    ensures var m := Appended(l, len);
            && m.size == l.size + len
            && (l.size + len <= l.cap ==>
                  m.cap == l.cap && m.gap == if l.gap + l.size + len <= l.cap then l.gap else 0)
            && (l.size + len > l.cap ==>
                  && m.gap == l.gap && m.cap >= l.size + len && m.cap >= (if l.cap == 0 then 64 else 2 * l.cap)
                  && (m.cap == (if l.cap == 0 then 64 else 2 * l.cap) || m.cap < 2 * (l.size + len)))
  {
  }

  /** Data at the front, or an append of at most the whole capacity, always fits. */
  lemma FrontFits(l: Layout, len: nat)
    requires l.gap + l.size <= l.cap && (l.gap == 0 || len <= l.cap)
    ensures RoomFor(l, len)
  {
  }

  /** What has been appended is inside the memory exactly when it fits. */
  lemma RoomIsInside(l: Layout, len: nat)
    requires l.gap + l.size <= l.cap
    ensures RoomFor(l, len) <==> Appended(l, len).gap + Appended(l, len).size <= Appended(l, len).cap
  {
  }

  /** Memory mem[..], of which mem[dataBegin..dataEnd] holds data. */
  class Buffer {
    var mem: array<Byte>
    var dataBegin: nat
    var dataEnd: nat

    ghost predicate Valid()
      reads this
    {
      dataBegin <= dataEnd <= mem.Length
    }

    ghost function Contents(): Bytes
      reads this, mem
      requires Valid()
    {
      mem[dataBegin..dataEnd]
    }

    /** The data starts at the front of the memory. */
    ghost predicate Front()
      reads this
      ensures Front() ==> Valid()
    {
      Valid() && dataBegin == 0
    }

    constructor ()
      ensures Front() && Contents() == [] && fresh(mem) && mem.Length == 0
    {
      mem := new Byte[0];
      dataBegin, dataEnd := 0, 0;
    }

    function Size(): (n: nat)
      reads this, mem
      requires Valid()
      ensures n == |Contents()|
    {
      dataEnd - dataBegin
    }

    ghost function AsLayout(): (l: Layout)
      reads this
      requires Valid()
      ensures l.gap + l.size <= l.cap
    {
      Layout(mem.Length, dataBegin, dataEnd - dataBegin)
    }

    /** Appending len bytes stays inside the memory. */
    ghost predicate HasRoom(len: nat)
      reads this
      requires Valid()
    {
      RoomFor(AsLayout(), len)
    }

    /** memmove to the front of the memory. */
    method ShiftToFront()
      requires Valid()
      modifies this, mem
      ensures Front() && Contents() == old(Contents()) && mem == old(mem)
      ensures AsLayout() == old(AsLayout()).(gap := 0)
    {
      ghost var was := Contents();
      var n, from := dataEnd - dataBegin, dataBegin;
      forall i | 0 <= i < n { mem[i] := mem[from + i]; }
      dataBegin, dataEnd := 0, n;
      assert mem[..n] == was;
    }

    /** realloc: the bytes keep their places in a larger memory. */
    method Reallocate(capacity: nat)
      requires Valid() && capacity >= mem.Length
      modifies this
      ensures Valid() && Contents() == old(Contents()) && fresh(mem) && mem.Length == capacity
      ensures dataBegin == old(dataBegin) && dataEnd == old(dataEnd)
    {
      var bigger := new Byte[capacity];
      forall i | 0 <= i < mem.Length { bigger[i] := mem[i]; }
      assert bigger[dataBegin..dataEnd] == mem[dataBegin..dataEnd];
      mem := bigger;
    }

    /** The doubling loop. */
    method NewCapacity(need: nat) returns (capacity: nat)
      ensures capacity == Grown(mem.Length, need) && capacity >= mem.Length
    {
      capacity := if mem.Length == 0 then 64 else mem.Length * 2;
      ghost var start := capacity;
      while capacity < need
        invariant capacity > 0 && Doubled(capacity, need) == Doubled(start, need)
      {
        capacity := capacity * 2;
      }
    }

    /** Make room for len bytes at the back, as far as the computed capacity goes. */
    method Reserve(len: nat)
      requires Valid()
      modifies this, mem
      ensures Valid() && Contents() == old(Contents()) && (mem == old(mem) || fresh(mem))
      ensures AsLayout() == MadeRoom(old(AsLayout()), len)
      ensures len <= mem.Length - dataEnd <==> old(HasRoom(len))
    {
      hide Grown, Contents;
      if len > mem.Length - dataEnd {
        if len <= mem.Length - Size() {
          ShiftToFront();
        } else {
          var capacity := NewCapacity(Size() + len);
          Reallocate(capacity);
        }
      }
    }

    /**
     * buf_append.  inside says whether the bytes have been copied into the memory: exactly when they fit.
     * Otherwise the copy would go past its end, and what happens then is not modelled.
     */
    method Append(data: Bytes) returns (inside: bool)
      requires Valid()
      modifies this, mem
      ensures inside <==> old(HasRoom(|data|))
      ensures mem == old(mem) || fresh(mem)
      ensures inside ==> Valid() && Contents() == old(Contents()) + data
      ensures inside ==> AsLayout() == Appended(old(AsLayout()), |data|)
    {
      hide RoomFor, Grown;
      RoomIsInside(AsLayout(), |data|);
      if |data| == 0 {
        assert Contents() + data == Contents();
        return true;
      }
      Reserve(|data|);
      if |data| > mem.Length - dataEnd {
        return false;
      }
      CopyIn(data);
      return true;
    }

    /** memcpy behind the data. */
    method CopyIn(data: Bytes)
      requires Valid() && |data| <= mem.Length - dataEnd
      modifies mem, this`dataEnd
      ensures Valid() && Contents() == old(Contents()) + data && dataEnd == old(dataEnd) + |data|
    {
      ghost var was, end := Contents(), dataEnd;
      Write(dataEnd, data);
      dataEnd := dataEnd + |data|;
      assert mem[dataBegin..end] == was && mem[end..dataEnd] == data;
    }

    /** memcpy into the memory. */
    method Write(at: nat, data: Bytes)
      requires at + |data| <= mem.Length
      modifies mem
      ensures forall i | 0 <= i < mem.Length :: mem[i] == if at <= i < at + |data| then data[i - at] else old(mem[i])
    {
      forall i | 0 <= i < |data| { mem[at + i] := data[i]; }
    }

    /** buf_consume: removing all the data moves both ends back to the front. */
    method Consume(n: nat)
      requires Valid() && n <= Size()
      modifies this
      ensures Valid() && Contents() == old(Contents())[n..] && mem == old(mem)
      ensures AsLayout() == Trimmed(old(AsLayout()), old(Size()) - n)
    {
      assert Contents()[n..] == mem[dataBegin + n..dataEnd];
      if n == dataEnd - dataBegin {
        dataBegin, dataEnd := 0, 0;
      } else {
        dataBegin := dataBegin + n;
      }
    }

    /** resize, for sizes up to the present one. */
    method Truncate(n: nat)
      requires Valid() && n <= Size()
      modifies this
      ensures Valid() && Contents() == old(Contents())[..n] && mem == old(mem) && dataBegin == old(dataBegin)
    {
      assert Contents()[..n] == mem[dataBegin..dataBegin + n];
      if n < Size() {
        dataEnd := dataBegin + n;
      }
    }

    /** Overwrite data in place, from position pos of the data. */
    method Patch(pos: nat, data: Bytes)
      requires Valid() && pos + |data| <= Size()
      modifies mem
      ensures Contents() == old(Contents())[..pos] + data + old(Contents())[pos + |data|..]
    {
      ghost var m := mem[..];
      Write(dataBegin + pos, data);
      Overwritten(m, mem[..], dataBegin, dataEnd, dataBegin + pos, data);
    }
  }

  lemma Overwritten(m: Bytes, m': Bytes, i: nat, j: nat, at: nat, data: Bytes)
    requires i <= at && at + |data| <= j <= |m| == |m'|
    requires forall k | 0 <= k < |m| :: m'[k] == if at <= k < at + |data| then data[k - at] else m[k]
    ensures var was := m[i..j]; m'[i..j] == was[..at - i] + data + was[at - i + |data|..]
  {
    assert m'[i..at] == m[i..at] && m'[at..at + |data|] == data && m'[at + |data|..j] == m[at + |data|..j];
    ThreeWays(m', i, at, at + |data|, j);
    SliceOfSlice(m, i, j, at);
    SliceOfSlice(m, i, j, at + |data|);
  }

  lemma SliceOfSlice<T>(s: seq<T>, i: nat, j: nat, a: nat)
    requires i <= a <= j <= |s|
    ensures s[i..j][..a - i] == s[i..a] && s[i..j][a - i..] == s[a..j]
  {
  }

  lemma ThreeWays<T>(s: seq<T>, i: nat, a: nat, b: nat, j: nat)
    requires i <= a <= b <= j <= |s|
    ensures s[i..j] == s[i..a] + s[a..b] + s[b..j]
  {
  }

  /** With a gap at the front, an append larger than the whole capacity may not fit. */
  lemma GapMatters()
    ensures !RoomFor(Layout(64, 60, 4), 124)
  {
    assert Grown(64, 128) == 128;
  }
}
