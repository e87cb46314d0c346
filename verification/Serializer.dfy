/** The binary serializer: a recursive format of tagged, length-prefixed values with big-endian
    fields, and the decoder that reads it back. */
module Serializer {
  import opened Wrappers
  import opened Sequences
  import opened Utf8

  datatype Error = IntRange | TooLong | Surrogate | Unsupported | Truncated | BadUtf8 | Unhashable | UnknownType

  datatype Result<+T> = Ok(value: T) | Err(error: Error)

  /** Python objects. A float is its IEEE 754 binary64 pattern; a string its code points; a
      dictionary its entries in order. `Other` stands for every unsupported type. */
  datatype Value =
    | Nil
    | Bool(b: bool)
    | Int(i: int)
    | Float(bits: nat)
    | Str(s: seq<nat>)
    | Bytes(bs: seq<Byte>)
    | List(items: seq<Value>)
    | Tuple(items: seq<Value>)
    | Dict(entries: seq<Entry>)
    | Other

  datatype Entry = Entry(key: Value, value: Value)

  const TWO32: int := 0x1_0000_0000
  const TWO63: int := 0x8000_0000_0000_0000
  const TWO64: int := 0x1_0000_0000_0000_0000

  // ----- big-endian fields

  /** The width of the field that follows a tag byte. */
  function Width(tag: Byte): nat {
    if tag == 1 then 1 else if tag == 2 || tag == 3 then 8 else 4
  }

  function Pow256(n: nat): nat {
    if n == 0 then 1 else 256 * Pow256(n - 1)
  }

  function Pack(n: nat, v: nat): (r: seq<Byte>)
    ensures |r| == n
  {
    if n == 0 then [] else Pack(n - 1, v / 256) + [v % 256]
  }

  function Unpack(b: seq<Byte>): nat {
    if b == [] then 0 else 256 * Unpack(b[..|b| - 1]) + b[|b| - 1]
  }

  lemma {:induction false} UnpackPack(n: nat, v: nat)
    requires v < Pow256(n)
    ensures Unpack(Pack(n, v)) == v
    decreases n
  {
    if n > 0 {
      UnpackPack(n - 1, v / 256);
      assert Pack(n, v)[..n - 1] == Pack(n - 1, v / 256);
    }
  }

  lemma FieldSizes(tag: Byte)
    ensures Width(tag) == 1 ==> Pow256(Width(tag)) == 256
    ensures Width(tag) == 4 ==> Pow256(Width(tag)) == TWO32
    ensures Width(tag) == 8 ==> Pow256(Width(tag)) == TWO64
  {
    assert Pow256(8) == 256 * Pow256(7) && Pow256(7) == 256 * Pow256(6);
    assert Pow256(6) == 256 * Pow256(5) && Pow256(5) == 256 * Pow256(4);
    assert Pow256(4) == 256 * Pow256(3) && Pow256(3) == 256 * Pow256(2);
    assert Pow256(2) == 256 * Pow256(1) && Pow256(1) == 256;
  }

  lemma UnpackFour(a: Byte, b: Byte, c: Byte, d: Byte)
    ensures Unpack([a, b, c, d]) == ((a * 256 + b) * 256 + c) * 256 + d
  {
    assert [a, b, c, d][..3] == [a, b, c] && [a, b, c][..2] == [a, b] && [a, b][..1] == [a] && [a][..0] == [];
    assert Unpack([a]) == a && Unpack([a, b]) == a * 256 + b && Unpack([a, b, c]) == (a * 256 + b) * 256 + c;
  }

  /** 64-bit two's complement. */
  function ToUnsigned(i: int): (u: nat)
    requires -TWO63 <= i < TWO63
    ensures u < TWO64 && ToSigned(u) == i
  {
    if i >= 0 then i else i + TWO64
  }

  function ToSigned(u: nat): int {
    if u < TWO63 then u else u - TWO64
  }

  // ----- encoding

  /** A tag byte and the field after it. */
  function Header(tag: Byte, field: nat): (r: seq<Byte>)
    ensures |r| == 1 + Width(tag)
  {
    [tag] + Pack(Width(tag), field)
  }

  /** The header with a length field, or the packing error. */
  function Sized(tag: Byte, length: nat, body: Result<seq<Byte>>): Result<seq<Byte>> {
    if body.Err? then body
    else if length >= TWO32 then Err(TooLong)
    else Ok(Header(tag, length) + body.value)
  }

  function Join(first: Result<seq<Byte>>, later: Result<seq<Byte>>): Result<seq<Byte>> {
    if first.Err? then first else if later.Err? then later else Ok(first.value + later.value)
  }

  function Encode(v: Value): Result<seq<Byte>> {
    match v
    case Nil => Ok(Header(0, 0))
    case Bool(b) => Ok(Header(1, if b then 1 else 0))
    case Int(i) => if -TWO63 <= i < TWO63 then Ok(Header(2, ToUnsigned(i))) else Err(IntRange)
    case Float(bits) => Ok(Header(3, bits))
    case Str(s) =>
      (match EncodeText(s)
       case None => Err(Surrogate)
       case Some(encoded) => Sized(4, |encoded|, Ok(encoded)))
    case Bytes(bs) => Sized(5, |bs|, Ok(bs))
    case List(items) => Sized(6, |items|, EncodeItems(items))
    case Tuple(items) => Sized(6, |items|, EncodeItems(items))
    case Dict(entries) => Sized(7, |entries|, EncodeEntries(entries))
    case Other => Err(Unsupported)
  }

  function EncodeItems(items: seq<Value>): Result<seq<Byte>> {
    if items == [] then Ok([]) else Join(Encode(items[0]), EncodeItems(items[1..]))
  }

  function EncodeEntries(entries: Entries): Result<seq<Byte>> {
    if entries == [] then Ok([])
    else Join(EncodeEntry(entries[0]), EncodeEntries(entries[1..]))
  }

  function EncodeEntry(e: Entry): Result<seq<Byte>> {
    Join(Encode(e.key), Encode(e.value))
  }

  // ----- the format

  /** A 32-bit field, most significant byte first. */
  function Big4(n: nat): seq<Byte> {
    [n / 0x100_0000 % 256, n / 0x1_0000 % 256, n / 0x100 % 256, n % 256]
  }

  function Big8(n: nat): seq<Byte> {
    Big4(n / 0x1_0000_0000) + Big4(n)
  }

  lemma Quotients(n: nat)
    ensures n / 0x1_0000 == n / 256 / 256 && n / 0x100_0000 == n / 256 / 256 / 256
    ensures n / 0x1_0000_0000 == n / 256 / 256 / 256 / 256
  {}

  lemma PackFourMore(k: nat, n: nat)
    ensures Pack(k + 4, n) == Pack(k, n / 0x1_0000_0000) + Big4(n)
  {
    var d1, d2, d3, d4 := n / 256, n / 256 / 256, n / 256 / 256 / 256, n / 256 / 256 / 256 / 256;
    assert Pack(k + 4, n) == Pack(k + 3, d1) + [n % 256];
    assert Pack(k + 3, d1) == Pack(k + 2, d2) + [d1 % 256];
    assert Pack(k + 2, d2) == Pack(k + 1, d3) + [d2 % 256];
    assert Pack(k + 1, d3) == Pack(k, d4) + [d3 % 256];
    hide Pack;
    Quotients(n);
    assert Big4(n) == [d3 % 256, d2 % 256, d1 % 256, n % 256];
  }

  lemma PackIsBig4(n: nat)
    ensures Pack(4, n) == Big4(n)
  {
    PackFourMore(0, n);
    assert Pack(0, n / 0x1_0000_0000) == [];
  }

  lemma PackIsBig8(n: nat)
    ensures Pack(8, n) == Big8(n)
  {
    PackFourMore(4, n);
    hide Pack, Big4;
    PackIsBig4(n / 0x1_0000_0000);
  }

  /** The parts that follow the header of a list: its encoded items in order. */
  ghost predicate ItemParts(items: seq<Value>, parts: seq<seq<Byte>>) {
    |parts| == |items| && forall i :: 0 <= i < |items| ==> Encode(items[i]) == Ok(parts[i])
  }

  /** The parts that follow the header of a dictionary: each encoded key before its encoded value. */
  ghost predicate EntryParts(entries: Entries, parts: seq<seq<Byte>>) {
    && |parts| == 2 * |entries|
    && forall i :: 0 <= i < |entries| ==>
         Encode(entries[i].key) == Ok(parts[2 * i]) && Encode(entries[i].value) == Ok(parts[2 * i + 1])
  }

  /** The bytes that a value becomes, type by type. */
  ghost predicate HasFormat(v: Value, b: seq<Byte>, parts: seq<seq<Byte>>) {
    match v
    case Nil => b == [0, 0, 0, 0, 0]
    case Bool(x) => b == [1, if x then 1 else 0]
    case Int(i) =>
      -0x8000_0000_0000_0000 <= i < 0x8000_0000_0000_0000
        && b == [2] + Big8(if i >= 0 then i else i + 0x1_0000_0000_0000_0000)
    case Float(bits) => b == [3] + Big8(bits)
    case Str(s) => EncodeText(s).Some? && b == [4] + Big4(|EncodeText(s).value|) + EncodeText(s).value
    case Bytes(bs) => b == [5] + Big4(|bs|) + bs
    case List(items) => ItemParts(items, parts) && b == [6] + Big4(|items|) + Concat(parts)
    case Tuple(items) => ItemParts(items, parts) && b == [6] + Big4(|items|) + Concat(parts)
    case Dict(entries) => EntryParts(entries, parts) && b == [7] + Big4(|entries|) + Concat(parts)
    case Other => false
  }

  lemma Format(v: Value) returns (parts: seq<seq<Byte>>)
    requires Encode(v).Ok?
    ensures HasFormat(v, Encode(v).value, parts)
  {
    hide Pack, Big4, Big8, Concat, EncodeText;
    parts := [];
    match v
    case Nil => PackIsBig4(0); Zero4();
    case Bool(b) => PackOne(if b then 1 else 0);
    case Int(i) => PackIsBig8(ToUnsigned(i));
    case Float(bits) => PackIsBig8(bits);
    case Str(s) => PackIsBig4(|EncodeText(s).value|);
    case Bytes(bs) => PackIsBig4(|bs|);
    case List(items) => PackIsBig4(|items|); parts := PartsOfItems(items);
    case Tuple(items) => PackIsBig4(|items|); parts := PartsOfItems(items);
    case Dict(entries) => PackIsBig4(|entries|); parts := PartsOfEntries(entries);
    case Other =>
  }

  lemma Zero4()
    ensures Big4(0) == [0, 0, 0, 0]
  {}

  lemma PackOne(x: nat)
    requires x < 256
    ensures Pack(1, x) == [x]
  {
    assert Pack(1, x) == Pack(0, x / 256) + [x % 256];
  }

  lemma {:induction false} PartsOfItems(items: seq<Value>) returns (parts: seq<seq<Byte>>)
    requires EncodeItems(items).Ok?
    ensures ItemParts(items, parts) && EncodeItems(items).value == Concat(parts)
  {
    hide Encode;
    if items == [] {
      parts := [];
    } else {
      var later := PartsOfItems(items[1..]);
      parts := [Encode(items[0]).value] + later;
      assert parts[1..] == later;
    }
  }

  lemma {:induction false} PartsOfEntries(entries: Entries) returns (parts: seq<seq<Byte>>)
    requires EncodeEntries(entries).Ok?
    ensures EntryParts(entries, parts) && EncodeEntries(entries).value == Concat(parts)
  {
    hide Encode;
    if entries == [] {
      parts := [];
    } else {
      var later := PartsOfEntries(entries[1..]);
      var key, value := Encode(entries[0].key).value, Encode(entries[0].value).value;
      parts := [key, value] + later;
      MoreEntryParts(entries, key, value, later);
      hide EntryParts;
      ConcatPair(key, value, later);
    }
  }

  lemma ConcatPair(key: seq<Byte>, value: seq<Byte>, later: seq<seq<Byte>>)
    ensures Concat([key, value] + later) == (key + value) + Concat(later)
  {
    var parts := [key, value] + later;
    assert parts[1..] == [value] + later && parts[1..][1..] == later;
    Regroup(key, value, Concat(later));
  }

  lemma MoreEntryParts(entries: Entries, key: seq<Byte>, value: seq<Byte>, later: seq<seq<Byte>>)
    requires entries != [] && EntryParts(entries[1..], later)
    requires Encode(entries[0].key) == Ok(key) && Encode(entries[0].value) == Ok(value)
    ensures EntryParts(entries, [key, value] + later)
  {
    hide Encode;
    var parts := [key, value] + later;
    forall i | 0 <= i < |entries|
      ensures Encode(entries[i].key) == Ok(parts[2 * i]) && Encode(entries[i].value) == Ok(parts[2 * i + 1])
    {
      if i > 0 { assert entries[1..][i - 1] == entries[i]; }
    }
  }

  // ----- decoding

  /** How much of the input lies at or after `offset`; reads past the end leave nothing. */
  function Left(data: seq<Byte>, offset: nat): nat {
    if offset < |data| then |data| - offset else 0
  }

  /** struct.unpack_from of the field after the tag byte. */
  function Field(data: seq<Byte>, offset: nat, tag: Byte): Result<nat> {
    if offset + Width(tag) <= |data| then Ok(Unpack(data[offset..offset + Width(tag)])) else Err(Truncated)
  }

  /** data[offset : offset + length], which Python cuts off at the end of the data. */
  function Slice(data: seq<Byte>, offset: nat, length: nat): seq<Byte> {
    if offset >= |data| then [] else if offset + length <= |data| then data[offset..offset + length] else data[offset..]
  }

  /** The 32-bit number whose first byte is at `at`, and the 64-bit one. */
  function Word4(data: seq<Byte>, at: nat): nat
    requires at + 4 <= |data|
  {
    var a: int, b: int, c: int, d: int := data[at], data[at + 1], data[at + 2], data[at + 3];
    a * 0x100_0000 + b * 0x1_0000 + c * 0x100 + d
  }

  function Word8(data: seq<Byte>, at: nat): nat
    requires at + 8 <= |data|
  {
    Word4(data, at) * 0x1_0000_0000 + Word4(data, at + 4)
  }

  lemma FieldIsWord4(data: seq<Byte>, at: nat, tag: Byte)
    requires 4 <= tag < 8 || tag == 0
    ensures Field(data, at, tag) == if at + 4 <= |data| then Ok(Word4(data, at)) else Err(Truncated)
  {
    if at + 4 <= |data| {
      var f := data[at..at + 4];
      assert f == [data[at], data[at + 1], data[at + 2], data[at + 3]];
      UnpackFour(data[at], data[at + 1], data[at + 2], data[at + 3]);
    }
  }

  lemma FieldIsWord8(data: seq<Byte>, at: nat, tag: Byte)
    requires tag == 2 || tag == 3
    ensures Field(data, at, tag) == if at + 8 <= |data| then Ok(Word8(data, at)) else Err(Truncated)
  {
    if at + 8 <= |data| {
      var f := data[at..at + 8];
      assert f[..4] == [data[at], data[at + 1], data[at + 2], data[at + 3]];
      assert f[4..] == [data[at + 4], data[at + 5], data[at + 6], data[at + 7]];
      assert f == f[..4] + [data[at + 4], data[at + 5], data[at + 6], data[at + 7]];
      UnpackJoins(f[..4], data[at + 4], data[at + 5], data[at + 6], data[at + 7]);
      UnpackFour(data[at], data[at + 1], data[at + 2], data[at + 3]);
      UnpackFour(data[at + 4], data[at + 5], data[at + 6], data[at + 7]);
      hide Unpack;
      assert Unpack(f[..4]) == Word4(data, at);
      assert Unpack(f) == Word8(data, at);
    }
  }

  lemma FieldIsByte(data: seq<Byte>, at: nat)
    ensures Field(data, at, 1) == if at < |data| then Ok(data[at]) else Err(Truncated)
  {
    if at < |data| {
      var f := data[at..at + 1];
      assert f == [data[at]] && f[..0] == [];
      assert Unpack(f) == 256 * Unpack(f[..0]) + f[0];
    }
  }

  lemma UnpackJoins(high: seq<Byte>, a: Byte, b: Byte, c: Byte, d: Byte)
    ensures var low: int := Unpack([a, b, c, d]); Unpack(high + [a, b, c, d]) == Unpack(high) * 0x1_0000_0000 + low
  {
    var f := high + [a, b, c, d];
    UnpackFour(a, b, c, d);
    assert f[..|f| - 1] == high + [a, b, c] && (high + [a, b, c])[..|high| + 2] == high + [a, b];
    assert (high + [a, b])[..|high| + 1] == high + [a] && (high + [a])[..|high|] == high;
    assert Unpack(high + [a]) == Unpack(high) * 256 + a;
    assert Unpack(high + [a, b]) == Unpack(high + [a]) * 256 + b;
    assert Unpack(high + [a, b, c]) == Unpack(high + [a, b]) * 256 + c;
  }

  /** What is left of `length` bytes from `at` on when the data ends earlier. */
  function Cut(data: seq<Byte>, at: nat, length: nat): (b: seq<Byte>)
    requires at <= |data|
    ensures b <= data[at..] && |b| == if length < |data| - at then length else |data| - at
  {
    if length < |data| - at then data[at..at + length] else data[at..]
  }

  lemma CutIsSlice(data: seq<Byte>, at: nat, length: nat)
    requires at <= |data|
    ensures Slice(data, at, length) == Cut(data, at, length)
  {}

  predicate Hashable(v: Value) {
    !v.List? && !v.Dict?
  }

  type Entries = seq<Entry>

  /** Which keys Python's dictionaries take to be the same (1, 1.0 and True, for instance) is a parameter. */
  datatype Codec = Codec(sameKey: (Value, Value) -> bool) {
    function KeyPosition(entries: Entries, key: Value): (i: nat)
      ensures i <= |entries|
      ensures i < |entries| ==> sameKey(entries[i].key, key)
      ensures forall j :: 0 <= j < i ==> !sameKey(entries[j].key, key)
    {
      if entries == [] || sameKey(entries[0].key, key) then 0 else 1 + KeyPosition(entries[1..], key)
    }

    /** result[key] = value: an equal key keeps its place and its key object. */
    function SetItem(entries: Entries, key: Value, value: Value): Result<Entries> {
      if !Hashable(key) then Err(Unhashable)
      else
        var i := KeyPosition(entries, key);
        Ok(if i < |entries| then entries[i := Entry(entries[i].key, value)] else entries + [Entry(key, value)])
    }

    function DecodeAt(data: seq<Byte>, offset: nat): (r: Result<(Value, nat)>)
      ensures r.Ok? ==> offset < |data| && offset < r.value.1
      decreases Left(data, offset), 0
    {
      if offset >= |data| then Err(Truncated)
      else
        var at := offset + 1;
        var tag := data[offset];
        if tag == 0 then Ok((Nil, at + 4))
        else if tag == 1 then
          match Field(data, at, 1) { case Err(e) => Err(e) case Ok(u) => Ok((Bool(u != 0), at + 1)) }
        else if tag == 2 then
          match Field(data, at, 2) { case Err(e) => Err(e) case Ok(u) => Ok((Int(ToSigned(u)), at + 8)) }
        else if tag == 3 then
          match Field(data, at, 3) { case Err(e) => Err(e) case Ok(u) => Ok((Float(u), at + 8)) }
        else if tag < 8 then
          match Field(data, at, tag)
          case Err(e) => Err(e)
          case Ok(length) =>
            if tag == 4 then
              match DecodeText(Slice(data, at + 4, length)) {
                case None => Err(BadUtf8)
                case Some(s) => Ok((Str(s), at + 4 + length))
              }
            else if tag == 5 then Ok((Bytes(Slice(data, at + 4, length)), at + 4 + length))
            else if tag == 6 then
              match DecodeItems(data, at + 4, length, []) {
                case Err(e) => Err(e)
                case Ok((items, end)) => Ok((List(items), end))
              }
            else
              match DecodeEntries(data, at + 4, length, []) {
                case Err(e) => Err(e)
                case Ok((entries, end)) => Ok((Dict(entries), end))
              }
        else Err(UnknownType)
    }

    function DecodeItems(data: seq<Byte>, offset: nat, count: nat, items: seq<Value>): (r: Result<(seq<Value>, nat)>)
      ensures r.Ok? ==> offset <= r.value.1
      decreases Left(data, offset), 1
    {
      if count == 0 then Ok((items, offset))
      else
        match DecodeAt(data, offset)
        case Err(e) => Err(e)
        case Ok((v, next)) => DecodeItems(data, next, count - 1, items + [v])
    }

    function DecodeEntries(data: seq<Byte>, offset: nat, count: nat, entries: Entries): (r: Result<(Entries, nat)>)
      ensures r.Ok? ==> offset <= r.value.1
      decreases Left(data, offset), 2
    {
      if count == 0 then Ok((entries, offset))
      else
        match DecodeEntry(data, offset, entries)
        case Err(e) => Err(e)
        case Ok((more, next)) => DecodeEntries(data, next, count - 1, more)
    }

    /** One round of the dictionary loop. */
    function DecodeEntry(data: seq<Byte>, offset: nat, entries: Entries): (r: Result<(Entries, nat)>)
      ensures r.Ok? ==> offset < |data| && offset < r.value.1
      decreases Left(data, offset), 1
    {
      match DecodeAt(data, offset)
      case Err(e) => Err(e)
      case Ok((key, middle)) =>
        match DecodeAt(data, middle)
        case Err(e) => Err(e)
        case Ok((value, next)) =>
          match SetItem(entries, key, value) { case Err(e) => Err(e) case Ok(more) => Ok((more, next)) }
    }

    // ----- what the bytes mean

    /** How every sequence of bytes reads, by its first byte. What follows the header of a list or a dictionary is
        told by ListReads and DictReads. */
    lemma BytesRead(data: seq<Byte>, offset: nat)
      ensures var r := DecodeAt(data, offset);
        if offset >= |data| then r == Err(Truncated)
        else
          var tag, at, left := data[offset], offset + 1, |data| - offset - 1;
          && (tag == 0 ==> r == Ok((Nil, at + 4)))
          && (tag == 1 ==> r == if left >= 1 then Ok((Bool(data[at] != 0), at + 1)) else Err(Truncated))
          && (tag == 2 ==>
                if left < 8 then r == Err(Truncated)
                else
                  var u: int := Word8(data, at);
                  r == Ok((Int(if u < 0x8000_0000_0000_0000 then u else u - 0x1_0000_0000_0000_0000), at + 8)))
          && (tag == 3 ==> r == if left >= 8 then Ok((Float(Word8(data, at)), at + 8)) else Err(Truncated))
          && (4 <= tag <= 7 && left < 4 ==> r == Err(Truncated))
          && (tag == 4 && left >= 4 ==>
                var text := DecodeText(Cut(data, at + 4, Word4(data, at)));
                r == if text.None? then Err(BadUtf8) else Ok((Str(text.value), at + 4 + Word4(data, at))))
          && (tag == 5 && left >= 4 ==>
                r == Ok((Bytes(Cut(data, at + 4, Word4(data, at))), at + 4 + Word4(data, at))))
          && (tag >= 8 ==> r == Err(UnknownType))
    {
      hide Unpack, DecodeText, DecodeItems, DecodeEntries;
      if offset < |data| {
        var tag, at := data[offset], offset + 1;
        if tag == 1 { FieldIsByte(data, at); }
        if tag == 2 || tag == 3 { FieldIsWord8(data, at, tag); }
        if 4 <= tag < 8 {
          FieldIsWord4(data, at, tag);
          if at + 4 <= |data| { CutIsSlice(data, at + 4, Word4(data, at)); }
        }
      }
    }

    /** Value i is read from at[i] on, up to at[i + 1]. */
    ghost predicate ReadOneByOne(data: seq<Byte>, items: seq<Value>, at: seq<nat>) {
      && |at| == |items| + 1
      && forall i :: 0 <= i < |items| ==> DecodeAt(data, at[i]) == Ok((items[i], at[i + 1]))
    }

    /** After the count of a list its items are read one after the other, up to the first failure. */
    lemma ListReads(data: seq<Byte>, offset: nat) returns (items: seq<Value>, at: seq<nat>)
      requires offset + 5 <= |data| && data[offset] == 6
      ensures ReadOneByOne(data, items, at) && at[0] == offset + 5
      ensures var count := Word4(data, offset + 1);
        if |items| == count then DecodeAt(data, offset) == Ok((List(items), at[count]))
        else
          && |items| < count && DecodeAt(data, at[|items|]).Err?
          && DecodeAt(data, offset) == Err(DecodeAt(data, at[|items|]).error)
    {
      hide Unpack;
      FieldIsWord4(data, offset + 1, 6);
      items, at := ItemsRead(data, offset + 5, Word4(data, offset + 1), []);
      assert [] + items == items;
    }

    lemma {:induction false} ItemsRead(data: seq<Byte>, offset: nat, count: nat, done: seq<Value>)
      returns (items: seq<Value>, at: seq<nat>)
      ensures ReadOneByOne(data, items, at) && at[0] == offset
      ensures
        if |items| == count then DecodeItems(data, offset, count, done) == Ok((done + items, at[count]))
        else
          && |items| < count && DecodeAt(data, at[|items|]).Err?
          && DecodeItems(data, offset, count, done) == Err(DecodeAt(data, at[|items|]).error)
      decreases count
    {
      hide DecodeAt;
      items, at := [], [offset];
      if count == 0 {
        assert done + [] == done;
      } else if DecodeAt(data, offset).Ok? {
        var (v, next) := DecodeAt(data, offset).value;
        var later, places := ItemsRead(data, next, count - 1, done + [v]);
        items, at := [v] + later, [offset] + places;
        Regroup(done, [v], later);
      }
    }

    /** A dictionary after key was set to value: an equal key keeps its place and its key object. */
    ghost predicate Stored(entries: Entries, key: Value, value: Value, after: Entries) {
      || (exists i ::
            0 <= i < |entries| && FirstSame(entries, key, i) && after == entries[i := Entry(entries[i].key, value)])
      || ((forall j :: 0 <= j < |entries| ==> !sameKey(entries[j].key, key)) && after == entries + [Entry(key, value)])
    }

    ghost predicate FirstSame(entries: Entries, key: Value, i: nat)
      requires i < |entries|
    {
      sameKey(entries[i].key, key) && forall j :: 0 <= j < i ==> !sameKey(entries[j].key, key)
    }

    /** A key and a value are read from `at` up to `next`, and stored. */
    ghost predicate EntryRead(data: seq<Byte>, at: nat, entries: Entries, after: Entries, next: nat) {
      && DecodeAt(data, at).Ok?
      && var (key, middle) := DecodeAt(data, at).value;
      && DecodeAt(data, middle).Ok? && !key.List? && !key.Dict?
      && var (value, end) := DecodeAt(data, middle).value;
      end == next && Stored(entries, key, value, after)
    }

    /** The key at `at` cannot be read, or its value cannot, or the key is a list or a dictionary. */
    ghost predicate EntryFails(data: seq<Byte>, at: nat, error: Error) {
      match DecodeAt(data, at)
      case Err(e) => error == e
      case Ok((key, middle)) =>
        match DecodeAt(data, middle)
        case Err(e) => error == e
        case Ok(_) => error == Unhashable && (key.List? || key.Dict?)
    }

    lemma SetItemStores(entries: Entries, key: Value, value: Value)
      ensures SetItem(entries, key, value).Ok? <==> !key.List? && !key.Dict?
      ensures SetItem(entries, key, value).Ok? ==> Stored(entries, key, value, SetItem(entries, key, value).value)
      ensures SetItem(entries, key, value).Err? ==> SetItem(entries, key, value).error == Unhashable
    {
      var i := KeyPosition(entries, key);
      if i < |entries| { assert FirstSame(entries, key, i); }
    }

    /** After the count of a dictionary its entries are read and stored one after the other, up to the first failure. */
    lemma DictReads(data: seq<Byte>, offset: nat) returns (states: seq<Entries>, at: seq<nat>)
      requires offset + 5 <= |data| && data[offset] == 7
      ensures 1 <= |states| == |at| && states[0] == [] && at[0] == offset + 5
      ensures forall i :: 0 <= i < |at| - 1 ==> EntryRead(data, at[i], states[i], states[i + 1], at[i + 1])
      ensures var count, last, r := Word4(data, offset + 1), |at| - 1, DecodeAt(data, offset);
        if last == count then r == Ok((Dict(states[last]), at[last]))
        else last < count && r.Err? && EntryFails(data, at[last], r.error)
    {
      hide Unpack;
      FieldIsWord4(data, offset + 1, 7);
      states, at := EntriesRead(data, offset + 5, Word4(data, offset + 1), []);
    }

    lemma {:induction false} EntriesRead(data: seq<Byte>, offset: nat, count: nat, entries: Entries)
      returns (states: seq<Entries>, at: seq<nat>)
      ensures 1 <= |states| == |at| && states[0] == entries && at[0] == offset
      ensures forall i :: 0 <= i < |at| - 1 ==> EntryRead(data, at[i], states[i], states[i + 1], at[i + 1])
      ensures var last, r := |at| - 1, DecodeEntries(data, offset, count, entries);
        if last == count then r == Ok((states[last], at[last]))
        else last < count && r.Err? && EntryFails(data, at[last], r.error)
      decreases count
    {
      hide DecodeAt, Stored, SetItem;
      states, at := [entries], [offset];
      if count > 0 {
        OneEntryReads(data, offset, entries);
        if DecodeEntry(data, offset, entries).Ok? {
          var (more, next) := DecodeEntry(data, offset, entries).value;
          var later, places := EntriesRead(data, next, count - 1, more);
          states, at := [entries] + later, [offset] + places;
        }
      }
    }

    lemma OneEntryReads(data: seq<Byte>, offset: nat, entries: Entries)
      ensures var r := DecodeEntry(data, offset, entries);
        if r.Ok? then EntryRead(data, offset, entries, r.value.0, r.value.1) else EntryFails(data, offset, r.error)
    {
      hide DecodeAt, Stored, SetItem;
      if DecodeAt(data, offset).Ok? {
        var (key, middle) := DecodeAt(data, offset).value;
        if DecodeAt(data, middle).Ok? { SetItemStores(entries, key, DecodeAt(data, middle).value.0); }
      }
    }

    /** A text and a byte string of one letter, both ways. */
    lemma OneLetter()
      ensures Encode(Str([97])) == Ok([4, 0, 0, 0, 1, 97]) && DecodeAt([4, 0, 0, 0, 1, 97], 0) == Ok((Str([97]), 6))
      ensures Encode(Bytes([97])) == Ok([5, 0, 0, 0, 1, 97]) && DecodeAt([5, 0, 0, 0, 1, 97], 0) == Ok((Bytes([97]), 6))
    {
      EncodesNext(97, [], [97], [], [97]);
      LetterEncodes(Str([97]), 4);
      LetterEncodes(Bytes([97]), 5);
    }

    lemma LetterEncodes(v: Value, tag: Byte)
      requires (v == Str([97]) && tag == 4) || (v == Bytes([97]) && tag == 5)
      requires EncodeText([97]) == Some([97])
      ensures Encode(v) == Ok([tag, 0, 0, 0, 1, 97]) && DecodeAt([tag, 0, 0, 0, 1, 97], 0) == Ok((v, 6))
    {
      hide DecodeAt, EncodeText, Pack;
      PackIsBig4(1);
      assert [tag] + Big4(1) + [97] == [tag, 0, 0, 0, 1, 97];
      DecodesPrefix(v, []);
      assert [tag, 0, 0, 0, 1, 97] + [] == [tag, 0, 0, 0, 1, 97];
    }

    // ----- what the format can carry

    /** What Python guarantees of its objects: hashable and distinct dictionary keys. */
    ghost predicate WellFormed(v: Value) {
      match v
      case Float(bits) => bits < TWO64
      case List(items) => ItemsWellFormed(items)
      case Tuple(items) => ItemsWellFormed(items)
      case Dict(entries) => DistinctKeys(entries) && EntriesWellFormed(entries)
      case _ => true
    }

    ghost predicate ItemsWellFormed(items: seq<Value>) {
      items == [] || (WellFormed(items[0]) && ItemsWellFormed(items[1..]))
    }

    ghost predicate EntriesWellFormed(entries: Entries) {
      entries == [] || (EntryWellFormed(entries[0]) && EntriesWellFormed(entries[1..]))
    }

    ghost predicate EntryWellFormed(e: Entry) {
      WellFormed(e.key) && WellFormed(e.value) && Hashable(e.key)
    }

    ghost predicate DistinctKeys(entries: Entries) {
      forall i, j :: 0 <= i < j < |entries| ==> !sameKey(entries[i].key, entries[j].key)
    }

    // ----- the decoder undoes the encoder

    /** Decoding an encoded value gives the value back (tuples as lists) and the exact end offset, unless
        some dictionary has a tuple for a key: such a key comes back as a list, which cannot be a key. */
    lemma {:induction false} DecodesAt(v: Value, data: seq<Byte>, offset: nat)
      requires WellFormed(v) && Encode(v).Ok? && HasAt(data, offset, Encode(v).value)
      ensures DecodeAt(data, offset) ==
        if ScalarKeyed(v) then Ok((Normal(v), offset + |Encode(v).value|)) else Err(Unhashable)
      decreases v
    {
      hide Encode, DecodeAt, EncodeItems, EncodeEntries, DecodeItems, DecodeEntries;
      match v
      case List(items) => ListHeader(items, v, data, offset); DecodesItems(items, data, offset + 5, []);
      case Tuple(items) => ListHeader(items, v, data, offset); DecodesItems(items, data, offset + 5, []);
      case Dict(entries) => DictHeader(entries, data, offset); DecodesEntries(entries, data, offset + 5, []);
      case _ => DecodesLeaf(v, data, offset);
    }

    lemma ListHeader(items: seq<Value>, v: Value, data: seq<Byte>, offset: nat)
      requires (v == List(items) || v == Tuple(items)) && Encode(v).Ok? && HasAt(data, offset, Encode(v).value)
      ensures EncodeItems(items).Ok? && HasAt(data, offset + 5, EncodeItems(items).value)
      ensures |Encode(v).value| == 5 + |EncodeItems(items).value|
      ensures DecodeAt(data, offset) ==
        match DecodeItems(data, offset + 5, |items|, []) {
          case Err(e) => Err(e)
          case Ok((r, end)) => Ok((List(r), end))
        }
      ensures [] + NormalItems(items) == NormalItems(items)
    {
      hide EncodeItems, DecodeItems, HasAt, Pack, Unpack;
      HeaderField(data, offset, 6, |items|, EncodeItems(items).value);
    }

    lemma DictHeader(entries: Entries, data: seq<Byte>, offset: nat)
      requires Encode(Dict(entries)).Ok? && HasAt(data, offset, Encode(Dict(entries)).value)
      ensures EncodeEntries(entries).Ok? && HasAt(data, offset + 5, EncodeEntries(entries).value)
      ensures |Encode(Dict(entries)).value| == 5 + |EncodeEntries(entries).value|
      ensures DecodeAt(data, offset) ==
        match DecodeEntries(data, offset + 5, |entries|, []) {
          case Err(e) => Err(e)
          case Ok((r, end)) => Ok((Dict(r), end))
        }
      ensures [] + NormalEntries(entries) == NormalEntries(entries)
    {
      hide EncodeEntries, DecodeEntries, HasAt, Pack, Unpack;
      HeaderField(data, offset, 7, |entries|, EncodeEntries(entries).value);
    }

    lemma DecodesLeaf(v: Value, data: seq<Byte>, offset: nat)
      requires !v.List? && !v.Tuple? && !v.Dict? && WellFormed(v)
      requires Encode(v).Ok? && HasAt(data, offset, Encode(v).value)
      ensures DecodeAt(data, offset) == Ok((v, offset + |Encode(v).value|))
    {
      hide HasAt, Pack, Unpack, Pow256, EncodeText, DecodeText, DecodeItems, DecodeEntries;
      match v
      case Nil => FieldSizes(0); HeaderAt(data, offset, 0, 0);
      case Bool(b) => FieldSizes(1); HeaderAt(data, offset, 1, if b then 1 else 0);
      case Int(i) => FieldSizes(2); HeaderAt(data, offset, 2, ToUnsigned(i));
      case Float(bits) => FieldSizes(3); HeaderAt(data, offset, 3, bits);
      case Str(s) => DecodesText(s, data, offset);
      case Bytes(b) => DecodesBytes(b, data, offset);
    }

    lemma DecodesBytes(b: seq<Byte>, data: seq<Byte>, offset: nat)
      requires Encode(Bytes(b)).Ok? && HasAt(data, offset, Encode(Bytes(b)).value)
      ensures DecodeAt(data, offset) == Ok((Bytes(b), offset + |Encode(Bytes(b)).value|))
    {
      hide Pack, Unpack;
      HeaderField(data, offset, 5, |b|, b);
      assert Slice(data, offset + 5, |b|) == b;
    }

    lemma DecodesText(s: seq<nat>, data: seq<Byte>, offset: nat)
      requires Encode(Str(s)).Ok? && HasAt(data, offset, Encode(Str(s)).value)
      ensures DecodeAt(data, offset) == Ok((Str(s), offset + |Encode(Str(s)).value|))
    {
      hide Pack, Unpack, EncodeText, DecodeText;
      var encoded := EncodeText(s).value;
      DecodeEncoded(s);
      HeaderField(data, offset, 4, |encoded|, encoded);
      assert Slice(data, offset + 5, |encoded|) == encoded;
    }

    lemma {:induction false} DecodesItems(items: seq<Value>, data: seq<Byte>, offset: nat, done: seq<Value>)
      requires ItemsWellFormed(items) && EncodeItems(items).Ok? && HasAt(data, offset, EncodeItems(items).value)
      ensures DecodeItems(data, offset, |items|, done) ==
        if ItemsScalarKeyed(items) then Ok((done + NormalItems(items), offset + |EncodeItems(items).value|))
        else Err(Unhashable)
      decreases items
    {
      hide Encode, DecodeAt, Normal, ScalarKeyed, WellFormed, Header;
      if items == [] {
        AddNothing(done);
      } else {
        var first, later := Encode(items[0]).value, EncodeItems(items[1..]).value;
        assert EncodeItems(items).value == first + later;
        HasAtSplit(data, offset, first, later);
        DecodesAt(items[0], data, offset);
        if ScalarKeyed(items[0]) {
          DecodesItems(items[1..], data, offset + |first|, done + [Normal(items[0])]);
          Regroup(done, [Normal(items[0])], NormalItems(items[1..]));
        }
      }
    }

    lemma KeyComesBack(key: Value)
      requires Hashable(key)
      ensures key.Tuple? ==> !Hashable(Normal(key))
      ensures !key.Tuple? ==> Normal(key) == key && ScalarKeyed(key)
    {}

    lemma {:induction false} DecodesEntry(e: Entry, data: seq<Byte>, offset: nat, done: Entries)
      requires EntryWellFormed(e) && (forall d :: d in done ==> !sameKey(d.key, e.key))
      requires EncodeEntry(e).Ok? && HasAt(data, offset, EncodeEntry(e).value)
      ensures DecodeEntry(data, offset, done) ==
        if EntryScalarKeyed(e) then Ok((done + [NormalEntry(e)], offset + |EncodeEntry(e).value|)) else Err(Unhashable)
      decreases e
    {
      hide Encode, DecodeAt, Normal, ScalarKeyed, WellFormed, Header;
      KeyComesBack(e.key);
      var k, v := Encode(e.key).value, Encode(e.value).value;
      HasAtSplit(data, offset, k, v);
      DecodesAt(e.key, data, offset);
      DecodesAt(e.value, data, offset + |k|);
    }

    /** No key of `entries` is already in `done`. */
    ghost predicate Fresh(done: Entries, entries: Entries) {
      forall i, j :: 0 <= i < |done| && 0 <= j < |entries| ==> !sameKey(done[i].key, entries[j].key)
    }

    lemma FreshStep(done: Entries, entries: Entries)
      requires entries != [] && DistinctKeys(entries) && Fresh(done, entries)
      ensures forall d :: d in done ==> !sameKey(d.key, entries[0].key)
      ensures DistinctKeys(entries[1..]) && Fresh(done + [NormalEntry(entries[0])], entries[1..])
    {}

    /** What decoding these entries into `done` amounts to. */
    ghost predicate DecodesTo(entries: Entries, data: seq<Byte>, offset: nat, done: Entries)
      requires EncodeEntries(entries).Ok?
    {
      DecodeEntries(data, offset, |entries|, done) ==
        if EntriesScalarKeyed(entries) then Ok((done + NormalEntries(entries), offset + |EncodeEntries(entries).value|))
        else Err(Unhashable)
    }

    lemma FirstThenLater(entries: Entries, data: seq<Byte>, offset: nat, done: Entries)
      requires entries != [] && EncodeEntries(entries).Ok?
      requires DecodeEntry(data, offset, done) ==
        if EntryScalarKeyed(entries[0])
        then Ok((done + [NormalEntry(entries[0])], offset + |EncodeEntry(entries[0]).value|))
        else Err(Unhashable)
      requires EntryScalarKeyed(entries[0]) ==>
        DecodesTo(entries[1..], data, offset + |EncodeEntry(entries[0]).value|, done + [NormalEntry(entries[0])])
      ensures DecodesTo(entries, data, offset, done)
    {
      hide Encode, EncodeEntry, DecodeEntry, NormalEntry, DecodeAt, Normal, ScalarKeyed, WellFormed, Header;
      Regroup(done, [NormalEntry(entries[0])], NormalEntries(entries[1..]));
    }

    lemma {:induction false} DecodesEntries(entries: Entries, data: seq<Byte>, offset: nat, done: Entries)
      requires EntriesWellFormed(entries) && DistinctKeys(entries) && Fresh(done, entries)
      requires EncodeEntries(entries).Ok? && HasAt(data, offset, EncodeEntries(entries).value)
      ensures DecodesTo(entries, data, offset, done)
      decreases entries
    {
      hide Encode, DecodeAt, Normal, ScalarKeyed, WellFormed, Header;
      if entries == [] {
        AddNothing(done);
      } else {
        var first, later := EncodeEntry(entries[0]).value, EncodeEntries(entries[1..]).value;
        HasAtSplit(data, offset, first, later);
        FreshStep(done, entries);
        DecodesEntry(entries[0], data, offset, done);
        if EntryScalarKeyed(entries[0]) {
          DecodesEntries(entries[1..], data, offset + |first|, done + [NormalEntry(entries[0])]);
        }
        FirstThenLater(entries, data, offset, done);
      }
    }

    /** Round trip: what follows an encoded value does not matter, and the value comes back exactly when
        no dictionary in it has a tuple for a key. */
    lemma RoundTrip(v: Value, before: seq<Byte>, after: seq<Byte>)
      requires WellFormed(v) && Encode(v).Ok?
      ensures var bs := Encode(v).value;
        && (DecodeAt(before + bs + after, |before|) == Ok((Normal(v), |before| + |bs|)) <==> ScalarKeyed(v))
        && (!ScalarKeyed(v) ==> DecodeAt(before + bs + after, |before|) == Err(Unhashable))
    {
      hide Encode, DecodeAt, Normal, ScalarKeyed, WellFormed;
      var bs := Encode(v).value;
      var data := before + bs + after;
      assert data[|before|..|before| + |bs|] == bs;
      DecodesAt(v, data, |before|);
    }

    /** A dictionary with a tuple key can be encoded, but what was encoded cannot be decoded. */
    lemma TupleKeyLost()
      ensures var v := Dict([Entry(Tuple([]), Nil)]);
        WellFormed(v) && Encode(v).Ok? && DecodeAt(Encode(v).value, 0) == Err(Unhashable)
    {
      var e := Entry(Tuple([]), Nil);
      var v := Dict([e]);
      assert EncodeEntries([e]) == Join(EncodeEntry(e), EncodeEntries([e][1..]));
      assert [e][1..] == [] && ItemsWellFormed([]);
      assert WellFormed(Tuple([])) && WellFormed(Nil);
      assert EntryWellFormed(e);
      assert EntriesWellFormed([e][1..]);
      assert EntriesWellFormed([e]);
      RoundTrip(v, [], []);
      assert [] + Encode(v).value + [] == Encode(v).value;
      assert !EntriesScalarKeyed([e]);
    }

    /** The encoding is prefix-free, and injective up to tuples and lists. */
    lemma PrefixFree(v: Value, w: Value, r: seq<Byte>, s: seq<Byte>)
      requires WellFormed(v) && Encode(v).Ok? && ScalarKeyed(v)
      requires WellFormed(w) && Encode(w).Ok? && ScalarKeyed(w)
      requires Encode(v).value + r == Encode(w).value + s
      ensures Normal(v) == Normal(w) && Encode(v).value == Encode(w).value && r == s
    {
      var a, b := Encode(v).value, Encode(w).value;
      DecodesPrefix(v, r);
      DecodesPrefix(w, s);
      assert (a + r)[..|a|] == a && (b + s)[..|b|] == b && (a + r)[|a|..] == r && (b + s)[|b|..] == s;
    }

    lemma DecodesPrefix(v: Value, after: seq<Byte>)
      requires WellFormed(v) && Encode(v).Ok? && ScalarKeyed(v)
      ensures DecodeAt(Encode(v).value + after, 0) == Ok((Normal(v), |Encode(v).value|))
    {
      hide Encode, DecodeAt, Normal, ScalarKeyed, WellFormed;
      RoundTrip(v, [], after);
      assert [] + Encode(v).value + after == Encode(v).value + after;
    }

    // ----- the work of decoding arbitrary bytes

    /** How often the decoder is entered, whether it succeeds or fails. */
    function Calls(data: seq<Byte>, offset: nat): nat
      decreases Left(data, offset), 0
    {
      if offset >= |data| then 1
      else
        var at, tag := offset + 1, data[offset];
        if (tag == 6 || tag == 7) && Field(data, at, tag).Ok? then
          var length := Field(data, at, tag).value;
          1 + if tag == 6 then ItemCalls(data, at + 4, length) else EntryCalls(data, at + 4, length)
        else 1
    }

    function ItemCalls(data: seq<Byte>, offset: nat, count: nat): nat
      decreases Left(data, offset), 1
    {
      if count == 0 then 0
      else
        Calls(data, offset) +
          match DecodeAt(data, offset)
          case Err(_) => 0
          case Ok((_, next)) => ItemCalls(data, next, count - 1)
    }

    function EntryCalls(data: seq<Byte>, offset: nat, count: nat): nat
      decreases Left(data, offset), 2
    {
      if count == 0 then 0
      else
        PairCalls(data, offset) +
          match DecodeEntry(data, offset, [])
          case Err(_) => 0
          case Ok((_, next)) => EntryCalls(data, next, count - 1)
    }

    /** One round of the dictionary loop: a value is decoded only after its key. */
    function PairCalls(data: seq<Byte>, offset: nat): nat
      decreases Left(data, offset), 1
    {
      Calls(data, offset) +
        match DecodeAt(data, offset)
        case Err(_) => 0
        case Ok((_, middle)) => Calls(data, middle)
    }

    /** Whether a round of the dictionary loop succeeds, and where it ends, does not depend on the entries so far. */
    lemma EntryEnd(data: seq<Byte>, offset: nat, entries: Entries, others: Entries)
      ensures var r, s := DecodeEntry(data, offset, entries), DecodeEntry(data, offset, others);
        (r.Ok? <==> s.Ok?) && (r.Ok? ==> r.value.1 == s.value.1)
    {
      hide DecodeAt;
    }

    /** On every input, whatever counts and lengths it claims: a success that ends at `end` has entered the decoder
        at most once for every byte before `end`, and a failure at most once for every byte left and once more. */
    lemma {:induction false} CallsBounded(data: seq<Byte>, offset: nat)
      ensures var r := DecodeAt(data, offset);
        if r.Ok? then Calls(data, offset) <= Left(data, offset) - Left(data, r.value.1)
        else Calls(data, offset) <= Left(data, offset) + 1
      decreases Left(data, offset), 0
    {
      if offset < |data| {
        var at, tag := offset + 1, data[offset];
        if tag == 6 && Field(data, at, tag).Ok? {
          ItemCallsBounded(data, at + 4, Field(data, at, tag).value, []);
        } else if tag == 7 && Field(data, at, tag).Ok? {
          EntryCallsBounded(data, at + 4, Field(data, at, tag).value, []);
        }
      }
    }

    /** A list as long as it claims needs a byte for every item, so a forged count always fails. */
    lemma {:induction false} ItemCallsBounded(data: seq<Byte>, offset: nat, count: nat, items: seq<Value>)
      ensures var r := DecodeItems(data, offset, count, items);
        if r.Ok? then count <= ItemCalls(data, offset, count) <= Left(data, offset) - Left(data, r.value.1)
        else ItemCalls(data, offset, count) <= Left(data, offset) + 1
      decreases Left(data, offset), 1
    {
      if count > 0 {
        CallsBounded(data, offset);
        match DecodeAt(data, offset)
        case Ok((v, next)) => ItemCallsBounded(data, next, count - 1, items + [v]);
        case Err(_) =>
      }
    }

    lemma {:induction false} EntryCallsBounded(data: seq<Byte>, offset: nat, count: nat, entries: Entries)
      ensures var r := DecodeEntries(data, offset, count, entries);
        if r.Ok? then 2 * count <= EntryCalls(data, offset, count) <= Left(data, offset) - Left(data, r.value.1)
        else EntryCalls(data, offset, count) <= Left(data, offset) + 1
      decreases Left(data, offset), 2
    {
      hide DecodeAt, Calls, PairCalls, DecodeEntry;
      if count > 0 {
        PairCallsBounded(data, offset, entries);
        EntryEnd(data, offset, entries, []);
        match DecodeEntry(data, offset, entries)
        case Ok((more, next)) => EntryCallsBounded(data, next, count - 1, more);
        case Err(_) =>
      }
    }

    lemma {:induction false} PairCallsBounded(data: seq<Byte>, offset: nat, entries: Entries)
      ensures var r := DecodeEntry(data, offset, entries);
        if r.Ok? then 2 <= PairCalls(data, offset) <= Left(data, offset) - Left(data, r.value.1)
        else PairCalls(data, offset) <= Left(data, offset) + 1
      decreases Left(data, offset), 1
    {
      CallsBounded(data, offset);
      match DecodeAt(data, offset)
      case Ok((_, middle)) => CallsBounded(data, middle);
      case Err(_) =>
    }

    /** A list that claims 2^32 - 1 items and holds none: the decoder is entered twice. */
    lemma ForgedCount()
      ensures var data: seq<Byte> := [6, 255, 255, 255, 255];
        Field(data, 1, 6) == Ok(TWO32 - 1) && DecodeAt(data, 0) == Err(Truncated) && Calls(data, 0) == 2
    {
      var data: seq<Byte> := [6, 255, 255, 255, 255];
      UnpackFour(255, 255, 255, 255);
      assert data[1..5] == [255, 255, 255, 255];
      assert Calls(data, 5) == 1 && DecodeAt(data, 5) == Err(Truncated);
      assert ItemCalls(data, 5, TWO32 - 1) == 1 && DecodeItems(data, 5, TWO32 - 1, []) == Err(Truncated);
    }

    // ----- the size of what is decoded

    /** A decoded value has no more nodes than the bytes it was read from. */
    lemma {:induction false} NodesBounded(data: seq<Byte>, offset: nat)
      requires DecodeAt(data, offset).Ok?
      ensures var (v, end) := DecodeAt(data, offset).value; Nodes(v) <= Left(data, offset) - Left(data, end)
      decreases Left(data, offset), 0
    {
      var at := offset + 1;
      if data[offset] == 6 {
        ItemNodesBounded(data, at + 4, Field(data, at, data[offset]).value, []);
      } else if data[offset] == 7 {
        EntryNodesBounded(data, at + 4, Field(data, at, data[offset]).value, []);
      }
    }

    lemma {:induction false} ItemNodesBounded(data: seq<Byte>, offset: nat, count: nat, items: seq<Value>)
      requires DecodeItems(data, offset, count, items).Ok?
      ensures var (r, end) := DecodeItems(data, offset, count, items).value;
        ItemNodes(r) <= ItemNodes(items) + Left(data, offset) - Left(data, end)
      decreases Left(data, offset), 1
    {
      if count > 0 {
        var (v, next) := DecodeAt(data, offset).value;
        NodesBounded(data, offset);
        ItemNodesSnoc(items, v);
        ItemNodesBounded(data, next, count - 1, items + [v]);
      }
    }

    lemma {:induction false} EntryNodesBounded(data: seq<Byte>, offset: nat, count: nat, entries: Entries)
      requires DecodeEntries(data, offset, count, entries).Ok?
      ensures var (r, end) := DecodeEntries(data, offset, count, entries).value;
        EntryNodes(r) <= EntryNodes(entries) + Left(data, offset) - Left(data, end)
      decreases Left(data, offset), 1
    {
      if count > 0 {
        var (key, middle) := DecodeAt(data, offset).value;
        var (value, next) := DecodeAt(data, middle).value;
        NodesBounded(data, offset);
        NodesBounded(data, middle);
        SetItemNodes(entries, key, value);
        EntryNodesBounded(data, next, count - 1, SetItem(entries, key, value).value);
      }
    }

    lemma SetItemNodes(entries: Entries, key: Value, value: Value)
      requires Hashable(key)
      ensures EntryNodes(SetItem(entries, key, value).value) <= EntryNodes(entries) + Nodes(key) + Nodes(value)
    {
      var i := KeyPosition(entries, key);
      if i < |entries| {
        EntryNodesUpdate(entries, i, value);
      } else {
        EntryNodesSnoc(entries, Entry(key, value));
      }
    }
  }

  function Nodes(v: Value): nat {
    match v
    case List(items) => 1 + ItemNodes(items)
    case Tuple(items) => 1 + ItemNodes(items)
    case Dict(entries) => 1 + EntryNodes(entries)
    case _ => 1
  }

  function ItemNodes(items: seq<Value>): nat {
    if items == [] then 0 else Nodes(items[0]) + ItemNodes(items[1..])
  }

  function EntryNodes(entries: Entries): nat {
    if entries == [] then 0 else PairNodes(entries[0]) + EntryNodes(entries[1..])
  }

  function PairNodes(e: Entry): nat {
    Nodes(e.key) + Nodes(e.value)
  }

  lemma {:induction false} ItemNodesSnoc(items: seq<Value>, v: Value)
    ensures ItemNodes(items + [v]) == ItemNodes(items) + Nodes(v)
    decreases |items|
  {
    if items == [] {
      assert ItemNodes([v]) == Nodes(v) + ItemNodes([v][1..]);
    } else {
      ItemNodesSnoc(items[1..], v);
      assert (items + [v])[1..] == items[1..] + [v];
    }
  }

  lemma {:induction false} EntryNodesSnoc(entries: Entries, e: Entry)
    ensures EntryNodes(entries + [e]) == EntryNodes(entries) + Nodes(e.key) + Nodes(e.value)
    decreases |entries|
  {
    if entries == [] {
      assert EntryNodes([e]) == Nodes(e.key) + Nodes(e.value) + EntryNodes([e][1..]);
    } else {
      EntryNodesSnoc(entries[1..], e);
      assert (entries + [e])[1..] == entries[1..] + [e];
    }
  }

  lemma {:induction false} EntryNodesUpdate(entries: Entries, i: nat, value: Value)
    requires i < |entries|
    ensures EntryNodes(entries[i := Entry(entries[i].key, value)]) <= EntryNodes(entries) + Nodes(value)
    decreases |entries|
  {
    var r := entries[i := Entry(entries[i].key, value)];
    if i == 0 {
      assert r[1..] == entries[1..];
    } else {
      EntryNodesUpdate(entries[1..], i - 1, value);
      assert r[1..] == entries[1..][i - 1 := Entry(entries[1..][i - 1].key, value)];
    }
  }

  // ----- values up to tuples, and the one restriction on dictionaries

  /** Tuples become lists. */
  function Normal(v: Value): Value {
    match v
    case List(items) => List(NormalItems(items))
    case Tuple(items) => List(NormalItems(items))
    case Dict(entries) => Dict(NormalEntries(entries))
    case _ => v
  }

  function NormalItems(items: seq<Value>): seq<Value> {
    if items == [] then [] else [Normal(items[0])] + NormalItems(items[1..])
  }

  function NormalEntries(entries: Entries): Entries {
    if entries == [] then [] else [NormalEntry(entries[0])] + NormalEntries(entries[1..])
  }

  function NormalEntry(e: Entry): Entry {
    Entry(e.key, Normal(e.value))
  }

  /** No dictionary inside v has a tuple as a key. */
  predicate ScalarKeyed(v: Value) {
    match v
    case List(items) => ItemsScalarKeyed(items)
    case Tuple(items) => ItemsScalarKeyed(items)
    case Dict(entries) => EntriesScalarKeyed(entries)
    case _ => true
  }

  predicate ItemsScalarKeyed(items: seq<Value>) {
    items == [] || (ScalarKeyed(items[0]) && ItemsScalarKeyed(items[1..]))
  }

  predicate EntriesScalarKeyed(entries: Entries) {
    entries == [] || (EntryScalarKeyed(entries[0]) && EntriesScalarKeyed(entries[1..]))
  }

  predicate EntryScalarKeyed(e: Entry) {
    !e.key.Tuple? && ScalarKeyed(e.value)
  }

  lemma AddNothing<T>(a: seq<T>)
    ensures a + [] == a && [] + a == a
  {}

  lemma JoinNothing(r: Result<seq<Byte>>)
    ensures Join(Ok([]), r) == r && Join(r, Ok([])) == r
  {
    if r.Ok? { AddNothing(r.value); }
  }

  lemma JoinTwice(a: seq<Byte>, b: seq<Byte>, r: Result<seq<Byte>>)
    ensures Join(Ok(a), Join(Ok(b), r)) == Join(Ok(a + b), r)
  {
    if r.Ok? { assert a + (b + r.value) == a + b + r.value; }
  }

  // ----- reading back single fields

  ghost predicate HasAt(data: seq<Byte>, offset: nat, bs: seq<Byte>) {
    offset + |bs| <= |data| && data[offset..offset + |bs|] == bs
  }

  lemma HasAtSplit(data: seq<Byte>, offset: nat, first: seq<Byte>, later: seq<Byte>)
    requires HasAt(data, offset, first + later)
    ensures HasAt(data, offset, first) && HasAt(data, offset + |first|, later)
  {
    var all := first + later;
    assert data[offset..offset + |all|][..|first|] == first;
    assert data[offset..offset + |all|][|first|..] == later;
  }

  lemma ByteAt(data: seq<Byte>, offset: nat, bs: seq<Byte>, i: nat)
    requires HasAt(data, offset, bs) && i < |bs|
    ensures offset + i < |data| && data[offset + i] == bs[i]
  {
    assert data[offset..offset + |bs|][i] == data[offset + i];
  }

  lemma HeaderAt(data: seq<Byte>, offset: nat, tag: Byte, field: nat)
    requires field < Pow256(Width(tag)) && HasAt(data, offset, Header(tag, field))
    ensures offset < |data| && data[offset] == tag && Field(data, offset + 1, tag) == Ok(field)
  {
    UnpackPack(Width(tag), field);
    HasAtSplit(data, offset, [tag], Pack(Width(tag), field));
    ByteAt(data, offset, [tag], 0);
  }

  lemma HeaderField(data: seq<Byte>, offset: nat, tag: Byte, length: nat, body: seq<Byte>)
    requires Width(tag) == 4 && length < TWO32 && HasAt(data, offset, Header(tag, length) + body)
    ensures offset < |data| && data[offset] == tag && Field(data, offset + 1, tag) == Ok(length)
    ensures HasAt(data, offset + 5, body)
  {
    FieldSizes(tag);
    HasAtSplit(data, offset, Header(tag, length), body);
    HeaderAt(data, offset, tag, length);
  }

  // ----- what can be encoded at all

  predicate Encodable(v: Value) {
    match v
    case Int(i) => -TWO63 <= i < TWO63
    case Str(s) => AllScalars(s) && |EncodeText(s).GetOr([])| < TWO32
    case Bytes(bs) => |bs| < TWO32
    case List(items) => |items| < TWO32 && ItemsEncodable(items)
    case Tuple(items) => |items| < TWO32 && ItemsEncodable(items)
    case Dict(entries) => |entries| < TWO32 && EntriesEncodable(entries)
    case Other => false
    case _ => true
  }

  predicate ItemsEncodable(items: seq<Value>) {
    items == [] || (Encodable(items[0]) && ItemsEncodable(items[1..]))
  }

  predicate EntriesEncodable(entries: Entries) {
    entries == [] || (EntryEncodable(entries[0]) && EntriesEncodable(entries[1..]))
  }

  predicate EntryEncodable(e: Entry) {
    Encodable(e.key) && Encodable(e.value)
  }

  /** Encoding succeeds exactly on 64-bit integers, surrogate-free strings and lengths below 2^32. */
  lemma {:induction false} EncodesExactly(v: Value)
    ensures Encode(v).Ok? <==> Encodable(v)
    decreases v
  {
    match v
    case Str(s) => DecodeEncoded(s);
    case List(items) => ItemsEncodeExactly(items);
    case Tuple(items) => ItemsEncodeExactly(items);
    case Dict(entries) => EntriesEncodeExactly(entries);
    case _ =>
  }

  lemma {:induction false} ItemsEncodeExactly(items: seq<Value>)
    ensures EncodeItems(items).Ok? <==> ItemsEncodable(items)
    decreases items
  {
    if items != [] {
      EncodesExactly(items[0]);
      ItemsEncodeExactly(items[1..]);
    }
  }

  lemma {:induction false} EntriesEncodeExactly(entries: Entries)
    ensures EncodeEntries(entries).Ok? <==> EntriesEncodable(entries)
    decreases entries
  {
    if entries != [] {
      EntryEncodesExactly(entries[0]);
      EntriesEncodeExactly(entries[1..]);
    }
  }

  lemma {:induction false} EntryEncodesExactly(e: Entry)
    ensures EncodeEntry(e).Ok? <==> EntryEncodable(e)
    decreases e
  {
    EncodesExactly(e.key);
    EncodesExactly(e.value);
  }

  /** The first of the items, if any, that cannot be encoded. */
  ghost predicate FirstFailure(items: seq<Value>, i: nat) {
    i <= |items| && (i < |items| ==> Encode(items[i]).Err?) && forall j :: 0 <= j < i ==> Encode(items[j]).Ok?
  }

  lemma {:induction false} ItemsFail(items: seq<Value>) returns (i: nat)
    ensures FirstFailure(items, i) && (i == |items| <==> EncodeItems(items).Ok?)
    ensures i < |items| ==> EncodeItems(items) == Encode(items[i])
  {
    hide Encode;
    if items == [] || Encode(items[0]).Err? {
      i := 0;
    } else {
      i := ItemsFail(items[1..]);
      i := i + 1;
      assert forall j :: 0 < j < i ==> items[j] == items[1..][j - 1];
    }
  }

  /** Keys and values in the order in which they are encoded. */
  function KeysAndValues(entries: Entries): seq<Value> {
    if entries == [] then [] else [entries[0].key, entries[0].value] + KeysAndValues(entries[1..])
  }

  lemma {:induction false} EntriesFail(entries: Entries) returns (i: nat)
    ensures var parts := KeysAndValues(entries);
      && FirstFailure(parts, i) && (i == |parts| <==> EncodeEntries(entries).Ok?)
      && (i < |parts| ==> EncodeEntries(entries) == Encode(parts[i]))
  {
    hide Encode;
    if entries == [] || Encode(entries[0].key).Err? {
      i := 0;
    } else if Encode(entries[0].value).Err? {
      i := 1;
    } else {
      i := EntriesFail(entries[1..]);
      i := i + 2;
      var parts := KeysAndValues(entries);
      assert forall j :: 2 <= j < |parts| ==> parts[j] == KeysAndValues(entries[1..])[j - 2];
    }
  }

  /** Which error stops an encoding: that of the first part that fails, before the length is looked at. */
  lemma EncodingErrors(v: Value) returns (parts: seq<Value>, i: nat)
    ensures parts == if v.List? || v.Tuple? then v.items else if v.Dict? then KeysAndValues(v.entries) else []
    ensures FirstFailure(parts, i)
    ensures Encode(v).Ok? || Encode(v) ==
      if v.Int? then Err(IntRange)
      else if v.Other? then Err(Unsupported)
      else if v.Str? && !AllScalars(v.s) then Err(Surrogate)
      else if i < |parts| then Encode(parts[i])
      else Err(TooLong)
  {
    parts, i := [], 0;
    match v
    case Str(s) => DecodeEncoded(s);
    case List(items) => parts := items; i := ItemsFail(items);
    case Tuple(items) => parts := items; i := ItemsFail(items);
    case Dict(entries) => parts := KeysAndValues(entries); i := EntriesFail(entries);
    case _ =>
  }

  // ----- the serializer object

  class BinarySerializer {
    const codec: Codec

    constructor (codec: Codec)
      ensures this.codec == codec
    {
      this.codec := codec;
    }

    method Serialize(v: Value) returns (r: Result<seq<Byte>>)
      ensures r == Encode(v)
    {
      if v.Dict? {
        r := SerializeDict(v.entries);
      } else {
        r := Encode(v);
      }
    }

    /** The loop over the entries of a dictionary. */
    method SerializeDict(entries: Entries) returns (r: Result<seq<Byte>>)
      ensures r == Encode(Dict(entries))
    {
      var items: seq<Byte> := [];
      JoinNothing(EncodeEntries(entries));
      assert entries[0..] == entries;
      for i := 0 to |entries|
        invariant EncodeEntries(entries) == Join(Ok(items), EncodeEntries(entries[i..]))
      {
        assert entries[i..][1..] == entries[i + 1..] && entries[i..][0] == entries[i];
        var key := Encode(entries[i].key);
        if key.Err? { return key; }
        var value := Encode(entries[i].value);
        if value.Err? { return value; }
        JoinTwice(items, key.value + value.value, EncodeEntries(entries[i + 1..]));
        items := items + (key.value + value.value);
      }
      assert entries[|entries|..] == [];
      JoinNothing(Ok(items));
      r := Sized(7, |entries|, Ok(items));
    }

    /** However large the counts in the data, the decoder is entered at most |data| + 1 times. */
    method Deserialize(data: seq<Byte>) returns (r: Result<Value>, ghost calls: nat)
      ensures codec.DecodeAt(data, 0).Ok? ==> r == Ok(codec.DecodeAt(data, 0).value.0)
      ensures codec.DecodeAt(data, 0).Err? ==> r == Err(codec.DecodeAt(data, 0).error)
      ensures calls == codec.Calls(data, 0) <= |data| + 1
    {
      codec.CallsBounded(data, 0);
      var d;
      d, calls := DecodeValue(data, 0);
      r := match d { case Err(e) => Err(e) case Ok((v, _)) => Ok(v) };
    }

    /** `calls` counts this call and all the calls it leads to. */
    method DecodeValue(data: seq<Byte>, start: nat) returns (r: Result<(Value, nat)>, ghost calls: nat)
      ensures r == codec.DecodeAt(data, start) && calls == codec.Calls(data, start)
      decreases Left(data, start), 0
    {
      calls := 1;
      if start >= |data| { return Err(Truncated), calls; }
      var tag, offset := data[start], start + 1;
      if tag == 0 { return Ok((Nil, offset + 4)), calls; }
      if tag == 1 {
        var u := Field(data, offset, 1);
        return if u.Err? then Err(u.error) else Ok((Bool(u.value != 0), offset + 1)), calls;
      }
      if tag == 2 {
        var u := Field(data, offset, 2);
        return if u.Err? then Err(u.error) else Ok((Int(ToSigned(u.value)), offset + 8)), calls;
      }
      if tag == 3 {
        var u := Field(data, offset, 3);
        return if u.Err? then Err(u.error) else Ok((Float(u.value), offset + 8)), calls;
      }
      if tag > 7 { return Err(UnknownType), calls; }
      var field := Field(data, offset, tag);
      if field.Err? { return Err(field.error), calls; }
      var length := field.value;
      offset := offset + 4;
      if tag == 4 {
        var text := DecodeText(Slice(data, offset, length));
        return if text.None? then Err(BadUtf8) else Ok((Str(text.value), offset + length)), calls;
      }
      if tag == 5 { return Ok((Bytes(Slice(data, offset, length)), offset + length)), calls; }
      ghost var inner;
      if tag == 6 {
        var items;
        items, inner := DecodeList(data, offset, length);
        return if items.Err? then Err(items.error) else Ok((List(items.value.0), items.value.1)), 1 + inner;
      }
      var result;
      result, inner := DecodeDict(data, offset, length);
      r := if result.Err? then Err(result.error) else Ok((Dict(result.value.0), result.value.1));
      calls := 1 + inner;
    }

    /** The loop over the items of a list. */
    method DecodeList(data: seq<Byte>, start: nat, length: nat) returns (r: Result<(seq<Value>, nat)>, ghost calls: nat)
      ensures r == codec.DecodeItems(data, start, length, []) && calls == codec.ItemCalls(data, start, length)
      decreases Left(data, start), 1
    {
      hide Codec.DecodeAt, Codec.Calls;
      calls := 0;
      var items, offset := [], start;
      for i := 0 to length
        invariant offset >= start && (i > 0 ==> Left(data, offset) < Left(data, start))
        invariant codec.DecodeItems(data, start, length, []) == codec.DecodeItems(data, offset, length - i, items)
        invariant codec.ItemCalls(data, start, length) == calls + codec.ItemCalls(data, offset, length - i)
      {
        var item;
        ghost var more;
        item, more := DecodeValue(data, offset);
        calls := calls + more;
        if item.Err? { return Err(item.error), calls; }
        items, offset := items + [item.value.0], item.value.1;
      }
      r := Ok((items, offset));
    }

    /** The loop over the entries of a dictionary. */
    method DecodeDict(data: seq<Byte>, start: nat, length: nat) returns (r: Result<(Entries, nat)>, ghost calls: nat)
      ensures r == codec.DecodeEntries(data, start, length, []) && calls == codec.EntryCalls(data, start, length)
      decreases Left(data, start), 1
    {
      hide Codec.DecodeAt, Codec.SetItem, Codec.Calls;
      calls := 0;
      var result: Entries, offset := [], start;
      for i := 0 to length
        invariant offset >= start && (i > 0 ==> Left(data, offset) < Left(data, start))
        invariant codec.DecodeEntries(data, start, length, []) == codec.DecodeEntries(data, offset, length - i, result)
        invariant codec.EntryCalls(data, start, length) == calls + codec.EntryCalls(data, offset, length - i)
      {
        codec.EntryEnd(data, offset, result, []);
        var key, value;
        ghost var more;
        key, more := DecodeValue(data, offset);
        calls := calls + more;
        if key.Err? { return Err(key.error), calls; }
        value, more := DecodeValue(data, key.value.1);
        calls := calls + more;
        if value.Err? { return Err(value.error), calls; }
        var extended := codec.SetItem(result, key.value.0, value.value.0);
        if extended.Err? { return Err(extended.error), calls; }
        result, offset := extended.value, value.value.1;
      }
      r := Ok((result, offset));
    }
  }
}
