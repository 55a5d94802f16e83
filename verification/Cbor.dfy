/**
 The part of CBOR (sections 3 and 3.1 of RFC 8949) that the transfer protocol uses.

 Writing is canonical: every head takes its shortest form.  Reading accepts any
 definite-length head, shortest or not, as a permissive decoder does; so reading
 inverts writing but the two are not claimed to be inverse the other way.
 */
module Cbor {
  import opened Basics

  const MAX_SUGGESTED_NAME_BYTES := 128

  datatype Item =
    | Uint(n: u64)
    | ByteString(bytes: Bytes)
    | TextString(utf8: Bytes)
    | ArrayHead(length: u64)
    | MapHead(length: u64)
    | Null

  /** What a decoder asks for next, and with which bound. */
  datatype Kind =
    | AnUint(max: u64)
    | ExactUint(value: u64, max: u64)
    | FixedBytes(width: nat)
    | BoundedBytes(limit: nat)
    | NameOrNull
    | AnArray(length: u64)
    | AMap(length: u64)

  datatype ReadError = Malformed | TooLarge | BadName

  // ---------------------------------------------------------------- writing

  function Head(major: nat, n: u64): (b: Bytes)
    requires major < 8
    ensures 1 <= |b| <= 9
  {
    if n < 24 then [major * 32 + n]
    else if n < 0x100 then [major * 32 + 24] + BigEndian(1, n)
    else if n < 0x1_0000 then [major * 32 + 25] + BigEndian(2, n)
    else if n < 0x1_0000_0000 then [major * 32 + 26] + BigEndian(4, n)
    else [major * 32 + 27] + BigEndian(8, n)
  }

  predicate Writable(item: Item) {
    match item
    case ByteString(b) => |b| < 0x1_0000_0000_0000_0000
    case TextString(b) => |b| < 0x1_0000_0000_0000_0000
    case _ => true
  }

  function Written(item: Item): (b: Bytes)
    requires Writable(item)
    ensures |b| >= 1
  {
    match item
    case Uint(n) => Head(0, n)
    case ByteString(b) => Head(2, |b|) + b
    case TextString(b) => Head(3, |b|) + b
    case ArrayHead(n) => Head(4, n)
    case MapHead(n) => Head(5, n)
    case Null => [0xf6]
  }

  predicate AllWritable(items: seq<Item>) {
    forall i :: 0 <= i < |items| ==> Writable(items[i])
  }

  function WrittenAll(items: seq<Item>): Bytes
    requires AllWritable(items)
  {
    if items == [] then [] else Written(items[0]) + WrittenAll(items[1..])
  }

  // ---------------------------------------------------------------- reading

  /** Well-formed UTF-8, as section 3 of RFC 3629 restricts it. */
  predicate IsUtf8(s: Bytes) {
    s == [] ||
    var tail := (k: int) => k < |s| && 0x80 <= s[if 0 <= k < |s| then k else 0] <= 0xbf;
    if s[0] < 0x80 then IsUtf8(s[1..])
    else if 0xc2 <= s[0] <= 0xdf then tail(1) && IsUtf8(s[2..])
    else if 0xe0 <= s[0] <= 0xef then
      && tail(1) && tail(2)
      && (s[0] == 0xe0 ==> s[1] >= 0xa0) && (s[0] == 0xed ==> s[1] <= 0x9f)
      && IsUtf8(s[3..])
    else if 0xf0 <= s[0] <= 0xf4 then
      && tail(1) && tail(2) && tail(3)
      && (s[0] == 0xf0 ==> s[1] >= 0x90) && (s[0] == 0xf4 ==> s[1] <= 0x8f)
      && IsUtf8(s[4..])
    else false
  }

  /** `char::is_control` somewhere in a well-formed string: C0, DEL, or C1 behind 0xc2. */
  predicate HasControl(s: Bytes) {
    || (exists i :: 0 <= i < |s| && (s[i] < 0x20 || s[i] == 0x7f))
    || (exists i :: 0 <= i < |s| - 1 && s[i] == 0xc2 && 0x80 <= s[i + 1] <= 0x9f)
  }

  /** `SuggestedName::new` on an existing string. */
  predicate ValidName(s: Bytes) {
    && 0 < |s| <= MAX_SUGGESTED_NAME_BYTES
    && !HasControl(s)
    && '/' as int !in s && '\\' as int !in s
  }

  function ArgumentWidth(info: nat): Option<nat> {
    if info < 24 then Some(0)
    else if info == 24 then Some(1)
    else if info == 25 then Some(2)
    else if info == 26 then Some(4)
    else if info == 27 then Some(8)
    else None
  }

  predicate Fits(item: Item, kind: Kind) {
    match kind
    case AnUint(max) => item.Uint? && item.n <= max
    case ExactUint(v, max) => item == Uint(v) && v <= max
    case FixedBytes(n) => item.ByteString? && |item.bytes| == n
    case BoundedBytes(limit) => item.ByteString? && |item.bytes| <= limit
    case NameOrNull => item.Null? || (item.TextString? && IsUtf8(item.utf8) && ValidName(item.utf8))
    case AnArray(n) => item == ArrayHead(n)
    case AMap(n) => item == MapHead(n)
  }

  predicate AllFit(items: seq<Item>, kinds: seq<Kind>) {
    |items| == |kinds| && forall i :: 0 <= i < |items| ==> Fits(items[i], kinds[i])
  }

  /** A definite-length head of one major type: its argument and its length. */
  function ReadHead(major: nat, b: Bytes): (r: Result<(nat, nat), ReadError>)
    requires major < 8
    ensures r.Ok? ==> 1 <= r.value.1 <= |b|
  {
    if b == [] || b[0] / 32 != major then Err(Malformed) else
    match ArgumentWidth(b[0] % 32)
    case None => Err(Malformed)
    case Some(w) =>
      if w == 0 then Ok((b[0] % 32, 1))
      else if |b| < 1 + w then Err(Malformed)
      else Ok((Value(256, b[1..1 + w]), 1 + w))
  }

  function ReadUint(max: u64, b: Bytes): (r: Result<(Item, nat), ReadError>)
    ensures r.Ok? ==> 1 <= r.value.1 <= |b|
  {
    var (n, used) :- ReadHead(0, b);
    if n > max then Err(Malformed) else Ok((Uint(n), used))
  }

  /** The payload of a byte (major 2) or text (major 3) string. */
  function ReadString(major: nat, b: Bytes): (r: Result<(Bytes, nat), ReadError>)
    requires major < 8
    ensures r.Ok? ==> 1 <= r.value.1 <= |b|
  {
    var (n, used) :- ReadHead(major, b);
    if n > |b| - used then Err(Malformed) else Ok((b[used..used + n], used + n))
  }

  function ReadCount(major: nat, length: u64, b: Bytes): (r: Result<nat, ReadError>)
    requires major < 8
    ensures r.Ok? ==> 1 <= r.value <= |b|
  {
    var (n, used) :- ReadHead(major, b);
    if n != length then Err(Malformed) else Ok(used)
  }

  function Read(kind: Kind, b: Bytes): (r: Result<(Item, nat), ReadError>)
    ensures r.Ok? ==> 1 <= r.value.1 <= |b| && Fits(r.value.0, kind)
  {
    match kind
    case AnUint(max) => ReadUint(max, b)
    case ExactUint(v, max) =>
      var (item, used) :- ReadUint(max, b);
      if item != Uint(v) then Err(Malformed) else Ok((item, used))
    case FixedBytes(n) =>
      var (s, used) :- ReadString(2, b);
      if |s| != n then Err(Malformed) else Ok((ByteString(s), used))
    case BoundedBytes(limit) =>
      var (s, used) :- ReadString(2, b);
      if |s| > limit then Err(TooLarge) else Ok((ByteString(s), used))
    case NameOrNull =>
      if b == [] then Err(Malformed)
      else if b[0] == 0xf6 then Ok((Null, 1))
      else if 0x60 <= b[0] <= 0x7b then
        var (s, used) :- ReadString(3, b);
        if !IsUtf8(s) then Err(Malformed) else if !ValidName(s) then Err(BadName) else Ok((TextString(s), used))
      else Err(Malformed)
    case AnArray(n) =>
      var used :- ReadCount(4, n, b);
      Ok((ArrayHead(n), used))
    case AMap(n) =>
      var used :- ReadCount(5, n, b);
      Ok((MapHead(n), used))
  }

  /** Reading a whole schema: the items and the number of bytes they took. */
  function ReadAll(kinds: seq<Kind>, b: Bytes): (r: Result<(seq<Item>, nat), ReadError>)
    ensures r.Ok? ==> AllFit(r.value.0, kinds) && r.value.1 <= |b|
  {
    if kinds == [] then Ok(([], 0)) else
    var (item, used) :- Read(kinds[0], b);
    var (items, more) :- ReadAll(kinds[1..], b[used..]);
    Ok(([item] + items, used + more))
  }

  // -------------------------------------------------------------- round trip

  lemma HeadReads(major: nat, n: u64, rest: Bytes)
    requires major < 8
    ensures ReadHead(major, Head(major, n) + rest) == Ok((n, |Head(major, n)|))
    ensures (Head(major, n) + rest)[0] / 32 == major && (Head(major, n) + rest)[0] % 32 <= 27
  {
    var b := Head(major, n) + rest;
    BytePowers();
    if n >= 24 {
      var w := |Head(major, n)| - 1;
      assert b[1..1 + w] == BigEndian(w, n);
      ValueOfDigits(256, w, n);
    }
  }

  lemma StringReads(major: nat, s: Bytes, rest: Bytes)
    requires major < 8 && |s| < 0x1_0000_0000_0000_0000
    ensures var b := Head(major, |s|) + s + rest;
            ReadString(major, b) == Ok((s, |Head(major, |s|)| + |s|))
  {
    hide Head, ReadHead;
    var h := Head(major, |s|);
    assert h + s + rest == h + (s + rest);
    HeadReads(major, |s|, s + rest);
    assert (h + s + rest)[|h|..|h| + |s|] == s;
  }

  lemma WrittenReads(item: Item, kind: Kind, rest: Bytes)
    requires Writable(item) && Fits(item, kind)
    ensures Read(kind, Written(item) + rest) == Ok((item, |Written(item)|))
  {
    hide IsUtf8, ValidName, ReadString, ReadHead, Head;
    match item
    case Uint(n) => HeadReads(0, n, rest);
    case ByteString(s) => StringReads(2, s, rest);
    case TextString(s) =>
      StringReads(3, s, rest);
      assert Head(3, |s|) + s + rest == Head(3, |s|) + (s + rest);
      HeadReads(3, |s|, s + rest);
    case ArrayHead(n) => HeadReads(4, n, rest);
    case MapHead(n) => HeadReads(5, n, rest);
    case Null =>
  }

  /** Reading a schema back from what was written for it, whatever follows. */
  lemma {:induction false} WrittenAllReads(items: seq<Item>, kinds: seq<Kind>, rest: Bytes)
    requires AllWritable(items) && AllFit(items, kinds)
    ensures ReadAll(kinds, WrittenAll(items) + rest) == Ok((items, |WrittenAll(items)|))
  {
    hide Written, Read, Fits, Writable;
    if items != [] {
      assert Fits(items[0], kinds[0]) && Writable(items[0]);
      var first, others := Written(items[0]), WrittenAll(items[1..]);
      var b := WrittenAll(items) + rest;
      assert b == first + (others + rest);
      WrittenReads(items[0], kinds[0], others + rest);
      assert b[|first|..] == others + rest;
      WrittenAllReads(items[1..], kinds[1..], rest);
      assert items == [items[0]] + items[1..];
    }
  }

  lemma {:induction false} WrittenConcat(a: seq<Item>, b: seq<Item>)
    requires AllWritable(a) && AllWritable(b)
    ensures AllWritable(a + b) && WrittenAll(a + b) == WrittenAll(a) + WrittenAll(b)
  {
    hide Written;
    if a == [] {
      assert a + b == b;
    } else {
      assert (a + b)[1..] == a[1..] + b;
      WrittenConcat(a[1..], b);
    }
  }

  lemma HeadIgnoresSuffix(major: nat, b: Bytes, more: Bytes)
    requires major < 8 && ReadHead(major, b).Ok?
    ensures ReadHead(major, b + more) == ReadHead(major, b)
  {
    var w := ArgumentWidth(b[0] % 32).value;
    assert (b + more)[1..1 + w] == b[1..1 + w];
  }

  lemma StringIgnoresSuffix(major: nat, b: Bytes, more: Bytes)
    requires major < 8 && ReadString(major, b).Ok?
    ensures ReadString(major, b + more) == ReadString(major, b)
  {
    hide ReadHead;
    HeadIgnoresSuffix(major, b, more);
    var (n, used) := ReadHead(major, b).value;
    assert (b + more)[used..used + n] == b[used..used + n];
  }

  /** Reading never looks past the bytes it consumes. */
  lemma ReadIgnoresSuffix(kind: Kind, b: Bytes, more: Bytes)
    requires Read(kind, b).Ok?
    ensures Read(kind, b + more) == Read(kind, b)
  {
    hide IsUtf8, ValidName, ReadString, ReadHead;
    match kind
    case AnUint(_) => HeadIgnoresSuffix(0, b, more);
    case ExactUint(_, _) => HeadIgnoresSuffix(0, b, more);
    case FixedBytes(_) => StringIgnoresSuffix(2, b, more);
    case BoundedBytes(_) => StringIgnoresSuffix(2, b, more);
    case NameOrNull => if b[0] != 0xf6 { StringIgnoresSuffix(3, b, more); }
    case AnArray(_) => HeadIgnoresSuffix(4, b, more);
    case AMap(_) => HeadIgnoresSuffix(5, b, more);
  }

  lemma {:induction false} ReadAllIgnoresSuffix(kinds: seq<Kind>, b: Bytes, more: Bytes)
    requires ReadAll(kinds, b).Ok?
    ensures ReadAll(kinds, b + more) == ReadAll(kinds, b)
  {
    hide Read;
    if kinds != [] {
      var (item, used) := Read(kinds[0], b).value;
      ReadIgnoresSuffix(kinds[0], b, more);
      assert (b + more)[used..] == b[used..] + more;
      ReadAllIgnoresSuffix(kinds[1..], b[used..], more);
    }
  }

  // ------------------------------------------------------------------ sizes

  function Content(item: Item): nat {
    match item case ByteString(b) => |b| case TextString(b) => |b| case _ => 0
  }

  /** Items of bounded content take at most nine more bytes each. */
  lemma {:induction false} WrittenSize(items: seq<Item>, cap: nat)
    requires AllWritable(items) && forall i :: 0 <= i < |items| ==> Content(items[i]) <= cap
    ensures |items| <= |WrittenAll(items)| <= (9 + cap) * |items|
  {
    hide Written, Content, Writable;
    if items != [] {
      assert Content(items[0]) <= cap;
      ItemSize(items[0]);
      WrittenSize(items[1..], cap);
      assert (9 + cap) * |items| == (9 + cap) + (9 + cap) * |items[1..]|;
    }
  }

  lemma ItemSize(item: Item)
    requires Writable(item)
    ensures 1 <= |Written(item)| <= 9 + Content(item)
  {
  }

  // ------------------------------------------------------ encoder and decoder

  class Encoder {
    var buffer: Bytes
    ghost var items: seq<Item>

    ghost predicate Valid()
      reads this
    {
      AllWritable(items) && buffer == WrittenAll(items)
    }

    constructor ()
      ensures Valid() && items == []
    {
      buffer, items := [], [];
    }

    method Put(item: Item)
      requires Valid() && Writable(item)
      modifies this
      ensures Valid() && items == old(items) + [item]
    {
      assert WrittenAll([item]) == Written(item) + WrittenAll([item][1..]);
      WrittenConcat(items, [item]);
      buffer := buffer + Written(item);
      items := items + [item];
    }
  }

  /** What remains to be read after part of a schema has been read. */
  function Resumed(items: seq<Item>, used: nat, r: Result<(seq<Item>, nat), ReadError>)
    : Result<(seq<Item>, nat), ReadError>
  {
    match r
    case Ok((more, n)) => Ok((items + more, used + n))
    case Err(e) => Err(e)
  }

  class Decoder {
    const input: Bytes
    var position: nat
    /** The schema in progress, where it started, and what it has yielded. */
    ghost var plan: seq<Kind>
    ghost var start: nat
    ghost var items: seq<Item>

    ghost predicate Valid()
      reads this
      ensures Valid() ==> start <= position <= |input|
    {
      && start <= position <= |input|
      && |items| <= |plan|
      && (forall i :: 0 <= i < |items| ==> Fits(items[i], plan[i]))
      && ReadAll(plan, input[start..])
         == Resumed(items, position - start, ReadAll(plan[|items|..], input[position..]))
    }

    constructor (input: Bytes)
      ensures Valid() && this.input == input && position == 0 && plan == []
    {
      this.input := input;
      position, start := 0, 0;
      plan, items := [], [];
      new;
      Begin([]);
    }

    ghost method Begin(schema: seq<Kind>)
      requires position <= |input|
      modifies `plan, `start, `items
      ensures Valid() && plan == schema && start == position && items == []
    {
      plan, start, items := schema, position, [];
      assert plan[0..] == plan;
      var r := ReadAll(plan, input[position..]);
      assert r.Ok? ==> [] + r.value.0 == r.value.0;
    }

    method Next(kind: Kind) returns (r: Result<Item, ReadError>)
      requires Valid() && |items| < |plan| && plan[|items|] == kind
      modifies `position, `items
      ensures Valid()
      ensures r.Ok? ==> Fits(r.value, kind) && items == old(items) + [r.value]
      ensures r.Err? ==> ReadAll(plan, input[start..]) == Err(r.error)
    {
      hide Read;
      ghost var rest := plan[|items|..];
      assert rest[0] == kind && rest[1..] == plan[|items| + 1..];
      var read := Read(kind, input[position..]);
      if read.Err? {
        return Err(read.error);
      }
      assert input[position..][read.value.1..] == input[position + read.value.1..];
      Extended(items, position - start, read.value.0, read.value.1,
               ReadAll(plan[|items| + 1..], input[position + read.value.1..]));
      items := items + [read.value.0];
      position := position + read.value.1;
      return Ok(read.value.0);
    }

    /** At the end of a schema the items are what the schema denotes. */
    lemma Completed()
      requires Valid() && |items| == |plan|
      ensures ReadAll(plan, input[start..]) == Ok((items, position - start))
    {
      assert plan[|items|..] == [];
      assert items + [] == items;
    }
  }

  lemma Extended(items: seq<Item>, used: nat, item: Item, more: nat, r: Result<(seq<Item>, nat), ReadError>)
    ensures Resumed(items, used, Resumed([item], more, r)) == Resumed(items + [item], used + more, r)
  {
    if r.Ok? {
      assert items + ([item] + r.value.0) == items + [item] + r.value.0;
    }
  }
}
