/**
 * Response values: a tag and what it announces.
 */
module Responses {
  import opened Names
  import opened Bits
  import opened Requests

  const TAG_NIL: Byte := 0
  const TAG_ERR: Byte := 1
  const TAG_STR: Byte := 2
  const TAG_INT: Byte := 3
  const TAG_DBL: Byte := 4
  const TAG_ARR: Byte := 5

  const ERR_UNKNOWN := 1
  const ERR_TOO_BIG := 2
  const ERR_BAD_TYPE := 3
  const ERR_BAD_ARG := 4

  /** A response; a double is given by its 64 bits. */
  datatype Res = Nil | Err(code: nat, msg: Bytes) | Str(s: Bytes) | Int(v: int) | Dbl(bits: nat) | Arr(items: seq<Res>)

  /** The bytes of a message text. */
  function Ascii(s: string): Bytes { seq(|s|, i requires 0 <= i < |s| => s[i] as int % 256) }

  /** The bytes of a response, lengths and counts through uint32_t. */
  function Encode(r: Res): (s: Bytes)
    ensures |s| > 0
  {
    match r
    case Nil => [TAG_NIL]
    case Err(code, msg) => [TAG_ERR] + U32(code) + U32(|msg|) + msg
    case Str(s) => [TAG_STR] + U32(|s|) + s
    case Int(v) => [TAG_INT] + U64(v)
    case Dbl(bits) => [TAG_DBL] + U64(bits)
    case Arr(items) => [TAG_ARR] + U32(|items|) + EncodeAll(items)
  }

  function EncodeAll(items: seq<Res>): Bytes {
    if items == [] then [] else Encode(items[0]) + EncodeAll(items[1..])
  }

  lemma {:induction false} EncodeAppend(items: seq<Res>, r: Res)
    ensures EncodeAll(items + [r]) == EncodeAll(items) + Encode(r)
  {
    if items == [] {
      assert (items + [r])[1..] == [];
    } else {
      assert (items + [r])[1..] == items[1..] + [r];
      EncodeAppend(items[1..], r);
    }
  }

  /** Numbers that their fields can hold. */
  predicate Fits(r: Res) {
    match r
    case Nil => true
    case Err(code, msg) => code < TWO_32
    case Str(s) => true
    case Int(v) => IsInt64(v)
    case Dbl(bits) => bits < TWO_64
    case Arr(items) => forall x <- items :: Fits(x)
  }

  // ----- decoding -----

  /** The end of a text of the given length behind a head: a 32-bit sum. */
  function TextEnd(head: nat, len: nat): nat { (head + len) % TWO_32 }

  /** The text itself; what is shown when its end has wrapped around is not modelled. */
  function Text(data: Bytes, head: nat, len: nat): Bytes { if head + len <= |data| then data[head..head + len] else [] }

  /** The response at the front of data and its length, as the client reads it. */
  function Decode(data: Bytes): (r: Option<(Res, nat)>)
    ensures r.Some? ==> r.value.1 <= |data|
    decreases |data|, 0
  {
    if |data| < 1 then None
    else if data[0] == TAG_NIL then Some((Nil, 1))
    else if data[0] == TAG_ERR then
      if |data| < 9 || |data| < TextEnd(9, Number(data[5..9])) then None
      else Some((Err(Number(data[1..5]), Text(data, 9, Number(data[5..9]))), TextEnd(9, Number(data[5..9]))))
    else if data[0] == TAG_STR then
      if |data| < 5 || |data| < TextEnd(5, Number(data[1..5])) then None
      else Some((Str(Text(data, 5, Number(data[1..5]))), TextEnd(5, Number(data[1..5]))))
    else if data[0] == TAG_INT then
      if |data| < 9 then None else Some((Int(Signed(Number(data[1..9]))), 9))
    else if data[0] == TAG_DBL then
      if |data| < 9 then None else Some((Dbl(Number(data[1..9])), 9))
    else if data[0] == TAG_ARR then
      if |data| < 5 then None
      else
        match DecodeAll(Number(data[1..5]), data[5..])
        case None => None
        case Some((items, n)) => Some((Arr(items), 5 + n))
    else None
  }

  /** n responses, one after another. */
  function DecodeAll(n: nat, data: Bytes): (r: Option<(seq<Res>, nat)>)
    ensures r.Some? ==> r.value.1 <= |data|
    decreases |data|, 1, n
  {
    if n == 0 then Some(([], 0))
    else
      match Decode(data)
      case None => None
      case Some((item, k)) =>
        match DecodeAll(n - 1, data[k..])
        case None => None
        case Some((items, m)) => Some(([item] + items, k + m))
  }

  /** print_res: decode the response at the front of data; the result is the number of bytes, or -1. */
  method PrintRes(data: Bytes) returns (rv: int, r: Res)
    requires |data| <= K_MAX_MSG
    ensures rv == if Decode(data).Some? then Decode(data).value.1 else -1
    ensures rv >= 0 ==> r == Decode(data).value.0
    decreases |data|
  {
    hide Number, Pow256, Signed, Text, TextEnd;
    r := Nil;
    if |data| < 1 {
      return -1, r;
    }
    if data[0] == TAG_NIL {
      return 1, Nil;
    } else if data[0] == TAG_ERR {
      if |data| < 9 {
        return -1, r;
      }
      var code, len := Number(data[1..5]), Number(data[5..9]);
      if |data| < TextEnd(9, len) {
        return -1, r;
      }
      return TextEnd(9, len), Err(code, Text(data, 9, len));
    } else if data[0] == TAG_STR {
      if |data| < 5 {
        return -1, r;
      }
      var len := Number(data[1..5]);
      if |data| < TextEnd(5, len) {
        return -1, r;
      }
      return TextEnd(5, len), Str(Text(data, 5, len));
    } else if data[0] == TAG_INT {
      if |data| < 9 {
        return -1, r;
      }
      return 9, Int(Signed(Number(data[1..9])));
    } else if data[0] == TAG_DBL {
      if |data| < 9 {
        return -1, r;
      }
      return 9, Dbl(Number(data[1..9]));
    } else if data[0] == TAG_ARR {
      if |data| < 5 {
        return -1, r;
      }
      rv, r := PrintArr(data, Number(data[1..5]));
    } else {
      return -1, r;
    }
  }

  ghost function Shift(items: seq<Res>, k: nat, r: Option<(seq<Res>, nat)>): Option<(seq<Res>, nat)> {
    match r case None => None case Some((more, m)) => Some((items + more, k + m))
  }

  lemma NoItems(data: Bytes)
    ensures DecodeAll(0, data) == Some(([], 0))
  {
  }

  lemma BadItem(n: nat, data: Bytes)
    requires n > 0 && Decode(data) == None
    ensures DecodeAll(n, data) == None
  {
  }

  /** The loop over the items of an array. */
  method PrintArr(data: Bytes, len: nat) returns (rv: int, r: Res)
    requires 5 <= |data| <= K_MAX_MSG
    ensures var d := DecodeAll(len, data[5..]);
            if d.Some? then rv == 5 + d.value.1 && r == Arr(d.value.0) else rv == -1
    decreases |data|, 0
  {
    hide Number, Pow256, Signed, Decode, DecodeAll;
    r := Nil;
    NoItems(data[5..]);
    var offset: nat := 5;
    var items := [];
    ghost var d := DecodeAll(len, data[5..]);
    ShiftNothing(d);
    for i := 0 to len
      invariant 5 <= offset <= |data|
      invariant d == Shift(items, offset - 5, DecodeAll(len - i, data[offset..]))
    {
      var item;
      rv, item := PrintRes(data[offset..]);
      if rv < 0 {
        BadItem(len - i, data[offset..]);
        return;
      }
      assert data[offset + rv..] == data[offset..][rv..];
      DecodeOneMore(len - i, data[offset..], item, rv);
      ShiftMore(items, offset - 5, item, rv, DecodeAll(len - i - 1, data[offset + rv..]));
      items := items + [item];
      offset := offset + rv;
    }
    NoItems(data[offset..]);
    assert items + [] == items;
    return offset, Arr(items);
  }

  lemma ShiftNothing(r: Option<(seq<Res>, nat)>)
    ensures Shift([], 0, r) == r
  {
    if r.Some? { assert [] + r.value.0 == r.value.0; }
  }

  lemma ShiftMore(items: seq<Res>, k: nat, item: Res, n: nat, r: Option<(seq<Res>, nat)>)
    ensures Shift(items, k, Shift([item], n, r)) == Shift(items + [item], k + n, r)
  {
    if r.Some? { assert items + ([item] + r.value.0) == items + [item] + r.value.0; }
  }

  // ----- decoding undoes encoding -----

  /** A text that is there in full, its end below 4 GB. */
  lemma TextIsThere(data: Bytes, head: nat, s: Bytes)
    requires head + |s| <= |data| && data[head..head + |s|] == s && head + |s| < TWO_32
    ensures TextEnd(head, |s|) == head + |s| && Text(data, head, |s|) == s
  {
  }

  lemma DecodeOfErr(code: nat, msg: Bytes, rest: Bytes)
    requires code < TWO_32 && 9 + |msg| < TWO_32
    ensures Decode(Encode(Err(code, msg)) + rest) == Some((Err(code, msg), 9 + |msg|))
  {
    hide Number, Pow256, U32, Text, TextEnd;
    var data := Encode(Err(code, msg)) + rest;
    U32RoundTrip(code, []);
    U32RoundTrip(|msg|, []);
    assert data[1..5] == U32(code) && data[5..9] == U32(|msg|) && data[9..9 + |msg|] == msg;
    TextIsThere(data, 9, msg);
  }

  /** A response of less than 4 GB, followed by anything, is decoded to itself and its exact length. */
  lemma {:induction false} DecodeOfEncode(r: Res, rest: Bytes)
    requires Fits(r) && |Encode(r)| < TWO_32
    ensures Decode(Encode(r) + rest) == Some((r, |Encode(r)|))
    decreases r, 0
  {
    hide Number, Pow256, Little, U32, U64, Signed, IsInt64, Text, TextEnd, DecodeAll, EncodeAll;
    var data := Encode(r) + rest;
    match r
    case Nil =>
    case Err(code, msg) =>
      DecodeOfErr(code, msg, rest);
    case Str(s) =>
      U32RoundTrip(|s|, []);
      assert data[1..5] == U32(|s|) && data[5..5 + |s|] == s;
      TextIsThere(data, 5, s);
    case Int(v) =>
      U64RoundTrip(v, []);
      assert data[1..9] == U64(v);
    case Dbl(bits) =>
      U64RoundTrip(bits, []);
      assert data[1..9] == U64(bits);
    case Arr(items) =>
      U32RoundTrip(|items|, []);
      ItemsAreFewer(items);
      assert data[1..5] == U32(|items|) && data[5..] == EncodeAll(items) + rest;
      DecodeOfEncodeAll(items, rest);
  }

  lemma {:induction false} DecodeOfEncodeAll(items: seq<Res>, rest: Bytes)
    requires (forall x <- items :: Fits(x)) && |EncodeAll(items)| < TWO_32
    ensures DecodeAll(|items|, EncodeAll(items) + rest) == Some((items, |EncodeAll(items)|))
    decreases items, 1
  {
    hide Decode, Encode, Fits;
    if items != [] {
      hide DecodeAll;
      var e, more := Encode(items[0]), EncodeAll(items[1..]);
      DecodeOfEncode(items[0], more + rest);
      DecodeOfEncodeAll(items[1..], rest);
      HeadAndTail(e, more, rest);
      DecodeOneMore(|items|, e + (more + rest), items[0], |e|);
      assert [items[0]] + items[1..] == items;
    }
  }

  lemma HeadAndTail(a: Bytes, b: Bytes, c: Bytes)
    ensures a + b + c == a + (b + c) && (a + (b + c))[|a|..] == b + c
  {
  }

  /** The first of n items, and the others. */
  lemma DecodeOneMore(n: nat, data: Bytes, item: Res, k: nat)
    requires n > 0 && Decode(data) == Some((item, k))
    ensures k <= |data| && DecodeAll(n, data) == Shift([item], k, DecodeAll(n - 1, data[k..]))
  {
    hide Decode;
  }

  lemma {:induction false} ItemsAreFewer(items: seq<Res>)
    ensures |items| <= |EncodeAll(items)|
  {
    if items != [] { ItemsAreFewer(items[1..]); }
  }

  /** Different responses have different bytes. */
  lemma EncodeInjective(r: Res, q: Res)
    requires Fits(r) && Fits(q) && |Encode(r)| < TWO_32 && Encode(r) == Encode(q)
    ensures r == q
  {
    hide Encode, Decode;
    DecodeOfEncode(r, []);
    DecodeOfEncode(q, []);
    assert Encode(r) + [] == Encode(q) + [];
  }
}
