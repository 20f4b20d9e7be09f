/**
 * The XPC object and message codec: values are written as type-tagged, 4-byte aligned objects with
 * nested length prefixes, and read back through a moving offset.
 */
module XpcFormat {
  import opened Bytes
  import opened Wrappers
  import Utf8

  const BODY_VERSION: nat := 5
  const WRAPPER_MAGIC: nat := 0x29b0_0b92
  const OBJECT_MAGIC: nat := 0x4213_3742
  const HEADER_SIZE: nat := 24

  const XPC_NULL: nat := 0x1000
  const XPC_BOOL: nat := 0x2000
  const XPC_INT64: nat := 0x3000
  const XPC_UINT64: nat := 0x4000
  const XPC_DOUBLE: nat := 0x5000
  const XPC_DATE: nat := 0x7000
  const XPC_DATA: nat := 0x8000
  const XPC_STRING: nat := 0x9000
  const XPC_UUID: nat := 0xa000
  const XPC_ARRAY: nat := 0xe000
  const XPC_DICTIONARY: nat := 0xf000

  const NANOS: int := 1_000_000

  type Eight = b: Bytes | |b| == 8 witness seq(8, i => 0)
  type Sixteen = b: Bytes | |b| == 16 witness seq(16, i => 0)

  /** Values given to the encoder and produced by the decoder. */
  datatype Xpc =
    | XNull                          // null and undefined
    | XBool(b: bool)
    | XInt(n: int)                   // a number that is an integer
    | XReal(bits: Eight)             // any other number
    | XBig(n: int)                   // a bigint
    | XStr(s: Text)
    | XDate(ms: int)
    | XUuid(id: Sixteen)
    | XData(bytes: Bytes)
    | XArr(items: seq<Xpc>)
    | XDict(entries: seq<Entry>)

  datatype Entry = Entry(key: Text, value: Xpc)

  datatype Error = RangeError | TypeError | FormatError

  datatype Message = Message(flags: int, id: int, body: Option<Xpc>)

  function CalcPadding(len: nat): (p: nat)
    ensures p < 4 && (len + p) % 4 == 0
  {
    (4 - len % 4) % 4
  }

  function Zeros(n: nat): (b: Bytes)
    ensures |b| == n && forall i :: 0 <= i < n ==> b[i] == 0
  {
    seq(n, i => 0)
  }

  // ----- fixed-width fields -----

  function U32(n: int): Result<Bytes, Error> {
    if 0 <= n < TWO32 then Ok(LE(n, 4)) else Err(RangeError)
  }

  function U64(n: int): Result<Bytes, Error> {
    if 0 <= n < TWO64 then Ok(LE(n, 8)) else Err(RangeError)
  }

  function I64(n: int): Result<Bytes, Error> {
    if -TWO63 <= n < TWO63 then Ok(LE(Unsigned(n, 8), 8)) else Err(RangeError)
  }

  // ----- encoding -----

  function EncodeKey(key: Text): Bytes {
    var b := Utf8.Encode(key);
    b + [0] + Zeros(CalcPadding(|b| + 1))
  }

  /** A length-prefixed payload padded to a multiple of 4. */
  function EncodePadded(tag: nat, b: Bytes): Result<Bytes, Error>
    requires tag < TWO32
  {
    var len :- U32(|b|);
    Ok(LE(tag, 4) + len + b + Zeros(CalcPadding(|b|)))
  }

  function EncodePayload(tag: nat, payload: Bytes): Result<Bytes, Error>
    requires tag < TWO32
  {
    var len :- U32(|payload|);
    Ok(LE(tag, 4) + len + payload)
  }

  function EncodeObject(v: Xpc): Result<Bytes, Error>
    decreases v, 0
  {
    match v
    case XNull => Ok(LE(XPC_NULL, 4))
    case XBool(b) => Ok(LE(XPC_BOOL, 4) + [if b then 1 else 0] + Zeros(3))
    case XInt(n) => (var b :- I64(n); Ok(LE(XPC_INT64, 4) + b))
    case XReal(bits) => Ok(LE(XPC_DOUBLE, 4) + bits)
    case XBig(n) => (var b :- U64(n); Ok(LE(XPC_UINT64, 4) + b))
    case XStr(s) => EncodePadded(XPC_STRING, Utf8.Encode(s) + [0])
    case XDate(ms) => (var b :- I64(ms * NANOS); Ok(LE(XPC_DATE, 4) + b))
    case XUuid(id) => Ok(LE(XPC_UUID, 4) + id)
    case XData(bytes) => EncodePadded(XPC_DATA, bytes)
    case XArr(items) =>
      var count :- U32(|items|);
      var parts :- EncodeItems(items);
      EncodePayload(XPC_ARRAY, count + parts)
    case XDict(es) => EncodeDictionary(es)
  }

  function EncodeItems(items: seq<Xpc>): Result<Bytes, Error>
    decreases items, 0
  {
    if items == [] then Ok([])
    else
      var init :- EncodeItems(items[..|items| - 1]);
      var last :- EncodeObject(items[|items| - 1]);
      Ok(init + last)
  }

  function EncodeEntries(es: seq<Entry>): Result<Bytes, Error>
    decreases es, 0
  {
    if es == [] then Ok([])
    else
      var init :- EncodeEntries(es[..|es| - 1]);
      var last :- EncodeObject(es[|es| - 1].value);
      Ok(init + EncodeKey(es[|es| - 1].key) + last)
  }

  function EncodeDictionary(es: seq<Entry>): Result<Bytes, Error>
    decreases es, 1
  {
    var count :- U32(|es|);
    var parts :- EncodeEntries(es);
    EncodePayload(XPC_DICTIONARY, count + parts)
  }

  function Header(flags: int, len: int, id: int): Result<Bytes, Error> {
    var f :- U32(flags);
    var l :- U64(len);
    var i :- U64(id);
    Ok(LE(WRAPPER_MAGIC, 4) + f + l + i)
  }

  function EncodeMessage(flags: int, id: int, body: Option<seq<Entry>>): Result<Bytes, Error> {
    match body
    case None => Header(flags, 0, id)
    case Some(es) =>
      var b :- EncodeDictionary(es);
      var header :- Header(flags, |b| + 8, id);
      Ok(header + LE(OBJECT_MAGIC, 4) + LE(BODY_VERSION, 4) + b)
  }

  // ----- reading at an offset -----

  datatype Read<+T> = Read(value: T, next: nat)

  function ReadNum(b: Bytes, at: nat, w: nat): Result<Read<nat>, Error> {
    if at + w <= |b| then Ok(Read(FromLE(b[at..at + w]), at + w)) else Err(RangeError)
  }

  function ReadByte(b: Bytes, at: nat): Result<Read<Byte>, Error> {
    if at < |b| then Ok(Read(b[at], at + 1)) else Err(RangeError)
  }

  /** `slice` stops at the end of the buffer, but the offset moves the whole way. */
  function ReadBytes(b: Bytes, at: nat, n: nat): (r: Read<Bytes>)
    ensures |r.value| <= n && (at <= |b| ==> |r.value| <= |b| - at)
  {
    Read(JsSlice(b, at, at + n), at + n)
  }

  /** `indexOf(0)`. */
  function IndexOfZero(b: Bytes): (i: int)
    ensures -1 <= i < |b|
  {
    if b == [] then -1
    else if b[0] == 0 then 0
    else
      var i := IndexOfZero(b[1..]);
      if i < 0 then -1 else i + 1
  }

  /** The key bytes up to the terminator, then padding computed from the decoded string's length. */
  function ReadKeyBytes(b: Bytes, at: nat): (r: Result<Read<Bytes>, Error>)
    ensures r.Ok? ==> at < r.value.next <= |b|
    decreases |b| - at
  {
    var c :- ReadByte(b, at);
    if c.value == 0 then Ok(Read([], c.next))
    else
      var rest :- ReadKeyBytes(b, c.next);
      Ok(Read([c.value] + rest.value, rest.next))
  }

  function ReadKey(b: Bytes, at: nat): (r: Result<Read<Text>, Error>)
    ensures r.Ok? ==> at < r.value.next
  {
    var k :- ReadKeyBytes(b, at);
    var key := Utf8.Decode(k.value);
    Ok(Read(key, k.next + CalcPadding(|key| + 1)))
  }

  // ----- decoding -----

  /** `Number(n)` for a 64-bit integer: `round` is the rounding to a double. */
  type Rounding = int -> int

  function TruncDiv(n: int, d: int): int
    requires d > 0
  {
    if n < 0 then -((-n) / d) else n / d
  }

  function HexDigit(d: int): CodeUnit
    requires 0 <= d < 16
  {
    if d < 10 then 48 + d else 87 + d
  }

  /** `toString("hex")`. */
  function Hex(b: Bytes): Text {
    if b == [] then [] else [HexDigit(b[0] / 16), HexDigit(b[0] % 16)] + Hex(b[1..])
  }

  function PutEntry(es: seq<Entry>, key: Text, value: Xpc): seq<Entry> {
    if es == [] then [Entry(key, value)]
    else if es[0].key == key then [Entry(key, value)] + es[1..]
    else [es[0]] + PutEntry(es[1..], key, value)
  }

  function DecodeObject(round: Rounding, b: Bytes, at: nat): (r: Result<Read<Xpc>, Error>)
    ensures r.Ok? ==> at + 4 <= r.value.next && at + 4 <= |b|
    decreases |b|, |b| - at, 0
  {
    var tag :- ReadNum(b, at, 4);
    if tag.value == XPC_NULL then Ok(Read(XNull, tag.next))
    else if tag.value == XPC_BOOL then
      var c :- ReadByte(b, tag.next);
      Ok(Read(XBool(c.value != 0), c.next + 3))
    else if tag.value == XPC_INT64 then
      var n :- ReadNum(b, tag.next, 8);
      Ok(Read(XInt(round(Signed(n.value, 8))), n.next))
    else if tag.value == XPC_UINT64 then
      var n :- ReadNum(b, tag.next, 8);
      Ok(Read(XInt(round(n.value)), n.next))
    else if tag.value == XPC_DOUBLE then
      if tag.next + 8 <= |b| then Ok(Read(XReal(b[tag.next..tag.next + 8]), tag.next + 8)) else Err(RangeError)
    else if tag.value == XPC_DATE then
      var n :- ReadNum(b, tag.next, 8);
      Ok(Read(XDate(TruncDiv(Signed(n.value, 8), NANOS)), n.next))
    else if tag.value == XPC_DATA then
      var len :- ReadNum(b, tag.next, 4);
      var data := ReadBytes(b, len.next, len.value);
      Ok(Read(XData(data.value), data.next + CalcPadding(len.value)))
    else if tag.value == XPC_STRING then
      var len :- ReadNum(b, tag.next, 4);
      var data := ReadBytes(b, len.next, len.value);
      Ok(Read(XStr(Utf8.Decode(JsSlice(data.value, 0, IndexOfZero(data.value)))), data.next + CalcPadding(len.value)))
    else if tag.value == XPC_UUID then
      var data := ReadBytes(b, tag.next, 16);
      Ok(Read(XStr(Hex(data.value)), data.next))
    else if tag.value == XPC_ARRAY then
      var len :- ReadNum(b, tag.next, 4);
      var data := ReadBytes(b, len.next, len.value);
      var count :- ReadNum(data.value, 0, 4);
      var items :- DecodeItems(round, data.value, count.next, count.value);
      Ok(Read(XArr(items.value), data.next))
    else if tag.value == XPC_DICTIONARY then
      var len :- ReadNum(b, tag.next, 4);
      var data := ReadBytes(b, len.next, len.value);
      var es :- DecodeDictionary(round, data.value);
      Ok(Read(XDict(es), data.next))
    else Err(TypeError)
  }

  function DecodeItems(round: Rounding, b: Bytes, at: nat, n: nat): (r: Result<Read<seq<Xpc>>, Error>)
    ensures r.Ok? ==> at <= r.value.next && |r.value.value| == n
    decreases |b|, |b| - at, 1 + n
  {
    if n == 0 then Ok(Read([], at))
    else
      var init :- DecodeItems(round, b, at, n - 1);
      var last :- DecodeObject(round, b, init.next);
      Ok(Read(init.value + [last.value], last.next))
  }

  function DecodeDictionary(round: Rounding, b: Bytes): Result<seq<Entry>, Error>
    decreases |b|, |b|, 0x1_0000_0000_0000
  {
    var count :- ReadNum(b, 0, 4);
    var es :- DecodeEntries(round, b, count.next, count.value);
    Ok(es.value)
  }

  function DecodeEntries(round: Rounding, b: Bytes, at: nat, n: nat): (r: Result<Read<seq<Entry>>, Error>)
    ensures r.Ok? ==> at <= r.value.next
    decreases |b|, |b| - at, 1 + n
  {
    if n == 0 then Ok(Read([], at))
    else
      var init :- DecodeEntries(round, b, at, n - 1);
      var key :- ReadKey(b, init.next);
      var value :- DecodeObject(round, b, key.next);
      Ok(Read(PutEntry(init.value, key.value, value.value), value.next))
  }

  /** The length in the wrapper header, or an error when the message is not complete. */
  function MessageLength(b: Bytes): (r: Result<nat, Error>)
    ensures r.Ok? ==> HEADER_SIZE <= r.value <= |b|
  {
    if |b| < HEADER_SIZE then Err(FormatError)
    else if FromLE(b[0..4]) != WRAPPER_MAGIC then Err(FormatError)
    else
      var total := HEADER_SIZE + FromLE(b[8..16]);
      if |b| < total then Err(FormatError) else Ok(total)
  }

  /** What `typeof` calls an object, arrays and null aside. */
  predicate IsBody(v: Xpc) {
    v.XDict? || v.XData? || v.XDate?
  }

  function DecodeMessage(round: Rounding, b: Bytes): (r: Result<Read<Message>, Error>)
    ensures r.Ok? ==> HEADER_SIZE <= r.value.next <= |b|
  {
    var consumed :- MessageLength(b);
    var flags := FromLE(b[4..8]);
    var len := FromLE(b[8..16]);
    var id := FromLE(b[16..24]);
    if len == 0 then Ok(Read(Message(flags, id, None), consumed))
    else
      var magic :- ReadNum(b, 24, 4);
      var version :- ReadNum(b, 28, 4);
      if magic.value != OBJECT_MAGIC || version.value != BODY_VERSION then Err(FormatError)
      else
        var v :- DecodeObject(round, JsSlice(b, 32, 32 + (len - 8)), 0);
        if IsBody(v.value) then Ok(Read(Message(flags, id, Some(v.value)), consumed)) else Err(TypeError)
  }
}

module XpcProtocol {
  import opened Bytes
  import opened Wrappers
  import opened XpcFormat
  import Utf8

  /** Collects buffer chunks. */
  class Writer {
    var chunks: seq<Bytes>

    ghost function Contents(): Bytes
      reads this
    {
      Flatten(chunks)
    }

    constructor ()
      ensures Contents() == []
    {
      chunks := [];
    }

    method WriteBuffer(buf: Bytes)
      modifies this
      ensures Contents() == old(Contents()) + buf
    {
      chunks := chunks + [buf];
    }

    method WriteUInt32LE(value: int) returns (r: Result<(), Error>)
      modifies this
      ensures match U32(value)
              case Ok(b) => r.Ok? && Contents() == old(Contents()) + b
              case Err(e) => r == Err(e)
    {
      var buf :- U32(value);
      WriteBuffer(buf);
      r := Ok(());
    }

    /** A type tag. */
    method WriteTag(tag: nat)
      requires tag < TWO32
      modifies this
      ensures Contents() == old(Contents()) + LE(tag, 4)
    {
      WriteBuffer(LE(tag, 4));
    }

    method WriteBigUInt64LE(value: int) returns (r: Result<(), Error>)
      modifies this
      ensures match U64(value)
              case Ok(b) => r.Ok? && Contents() == old(Contents()) + b
              case Err(e) => r == Err(e)
    {
      var buf :- U64(value);
      WriteBuffer(buf);
      r := Ok(());
    }

    method WriteBigInt64LE(value: int) returns (r: Result<(), Error>)
      modifies this
      ensures match I64(value)
              case Ok(b) => r.Ok? && Contents() == old(Contents()) + b
              case Err(e) => r == Err(e)
    {
      var buf :- I64(value);
      WriteBuffer(buf);
      r := Ok(());
    }

    method WritePadding(len: nat)
      modifies this
      ensures Contents() == old(Contents()) + Zeros(len)
    {
      if len > 0 {
        WriteBuffer(Zeros(len));
      } else {
        assert Zeros(len) == [];
      }
    }

    method Concat() returns (b: Bytes)
      ensures b == Contents()
    {
      b := Flatten(chunks);
    }
  }

  method EncodeDictionaryKey(writer: Writer, key: Text)
    modifies writer
    ensures writer.Contents() == old(writer.Contents()) + EncodeKey(key)
  {
    var before := writer.Contents();
    var keyBuf := Utf8.Encode(key);
    writer.WriteBuffer(keyBuf);
    writer.WriteBuffer([0]);
    writer.WritePadding(CalcPadding(|keyBuf| + 1));
    assert before + keyBuf + [0] + Zeros(CalcPadding(|keyBuf| + 1)) == before + EncodeKey(key);
  }

  method EncodeObject(writer: Writer, value: Xpc) returns (r: Result<(), Error>)
    modifies writer
    ensures match XpcFormat.EncodeObject(value)
            case Ok(b) => r.Ok? && writer.Contents() == old(writer.Contents()) + b
            case Err(e) => r == Err(e)
    decreases value, 0
  {
    hide LE, Zeros, Utf8.Encode, Flatten, EncodeItems, XpcFormat.EncodeDictionary, U32, U64, I64;
    var before := writer.Contents();
    r := Ok(());
    match value
    case XNull => writer.WriteTag(XPC_NULL);
    case XBool(b) =>
      writer.WriteTag(XPC_BOOL);
      writer.WriteBuffer([if b then 1 else 0]);
      writer.WritePadding(3);
      assert writer.Contents() == before + (LE(XPC_BOOL, 4) + [if b then 1 else 0] + Zeros(3));
    case XInt(n) =>
      writer.WriteTag(XPC_INT64);
      r := writer.WriteBigInt64LE(n);
      assert r.Ok? ==> writer.Contents() == before + (LE(XPC_INT64, 4) + I64(n).value);
    case XReal(bits) =>
      writer.WriteTag(XPC_DOUBLE);
      writer.WriteBuffer(bits);
      assert writer.Contents() == before + (LE(XPC_DOUBLE, 4) + bits);
    case XBig(n) =>
      writer.WriteTag(XPC_UINT64);
      r := writer.WriteBigUInt64LE(n);
      assert r.Ok? ==> writer.Contents() == before + (LE(XPC_UINT64, 4) + U64(n).value);
    case XStr(s) =>
      r := WritePadded(writer, XPC_STRING, Utf8.Encode(s) + [0]);
    case XDate(ms) =>
      writer.WriteTag(XPC_DATE);
      r := writer.WriteBigInt64LE(ms * NANOS);
      assert r.Ok? ==> writer.Contents() == before + (LE(XPC_DATE, 4) + I64(ms * NANOS).value);
    case XUuid(id) =>
      writer.WriteTag(XPC_UUID);
      writer.WriteBuffer(id);
      assert writer.Contents() == before + (LE(XPC_UUID, 4) + id);
    case XData(bytes) =>
      r := WritePadded(writer, XPC_DATA, bytes);
    case XArr(items) =>
      r := EncodeArray(writer, items);
    case XDict(entries) =>
      r := EncodeDictionary(writer, entries);
  }

  method WritePadded(writer: Writer, tag: nat, b: Bytes) returns (r: Result<(), Error>)
    requires tag < TWO32
    modifies writer
    ensures match EncodePadded(tag, b)
            case Ok(e) => r.Ok? && writer.Contents() == old(writer.Contents()) + e
            case Err(e) => r == Err(e)
  {
    hide LE, Zeros, Flatten, U32;
    var before := writer.Contents();
    writer.WriteTag(tag);
    var done :- writer.WriteUInt32LE(|b|);
    writer.WriteBuffer(b);
    writer.WritePadding(CalcPadding(|b|));
    assert writer.Contents() == before + (LE(tag, 4) + U32(|b|).value + b + Zeros(CalcPadding(|b|)));
    r := Ok(());
  }

  method WritePayload(writer: Writer, tag: nat, payload: Bytes) returns (r: Result<(), Error>)
    requires tag < TWO32
    modifies writer
    ensures match EncodePayload(tag, payload)
            case Ok(e) => r.Ok? && writer.Contents() == old(writer.Contents()) + e
            case Err(e) => r == Err(e)
  {
    hide LE, Flatten, U32;
    var before := writer.Contents();
    writer.WriteTag(tag);
    var done :- writer.WriteUInt32LE(|payload|);
    writer.WriteBuffer(payload);
    assert writer.Contents() == before + (LE(tag, 4) + U32(|payload|).value + payload);
    r := Ok(());
  }

  method EncodeArray(writer: Writer, items: seq<Xpc>) returns (r: Result<(), Error>)
    modifies writer
    ensures match XpcFormat.EncodeObject(XArr(items))
            case Ok(e) => r.Ok? && writer.Contents() == old(writer.Contents()) + e
            case Err(e) => r == Err(e)
    decreases items, 1
  {
    hide LE, Flatten, U32, EncodePayload;
    var inner := new Writer();
    var counted := inner.WriteUInt32LE(|items|);
    if counted.Err? {
      return counted;
    }
    var count := U32(|items|).value;
    for i := 0 to |items|
      invariant fresh(inner) && writer.chunks == old(writer.chunks)
      invariant EncodeItems(items[..i]).Ok? && inner.Contents() == count + EncodeItems(items[..i]).value
      invariant EncodeItems(items).Ok? ==> EncodeItems(items[..i]).Ok?
    {
      assert items[..i + 1][..i] == items[..i];
      var one := EncodeObject(inner, items[i]);
      if one.Err? {
        assert EncodeItems(items[..i + 1]) == Err(one.error);
        ItemsError(items, i + 1);
        return one;
      }
    }
    assert items[..|items|] == items;
    var payload := inner.Concat();
    r := WritePayload(writer, XPC_ARRAY, payload);
  }

  lemma {:induction false} ItemsError(items: seq<Xpc>, n: nat)
    requires n <= |items| && EncodeItems(items[..n]).Err?
    ensures EncodeItems(items) == EncodeItems(items[..n])
  {
    if n == |items| {
      assert items[..n] == items;
    } else {
      assert items[..|items| - 1][..n] == items[..n];
      ItemsError(items[..|items| - 1], n);
    }
  }

  method EncodeDictionary(writer: Writer, dict: seq<Entry>) returns (r: Result<(), Error>)
    modifies writer
    ensures match XpcFormat.EncodeDictionary(dict)
            case Ok(e) => r.Ok? && writer.Contents() == old(writer.Contents()) + e
            case Err(e) => r == Err(e)
    decreases dict, 1
  {
    hide LE, Flatten, U32, EncodePayload, EncodeKey;
    var inner := new Writer();
    var counted := inner.WriteUInt32LE(|dict|);
    if counted.Err? {
      return counted;
    }
    var count := U32(|dict|).value;
    for i := 0 to |dict|
      invariant fresh(inner) && writer.chunks == old(writer.chunks)
      invariant EncodeEntries(dict[..i]).Ok? && inner.Contents() == count + EncodeEntries(dict[..i]).value
    {
      assert dict[..i + 1][..i] == dict[..i];
      EncodeDictionaryKey(inner, dict[i].key);
      var one := EncodeObject(inner, dict[i].value);
      if one.Err? {
        assert EncodeEntries(dict[..i + 1]) == Err(one.error);
        EntriesError(dict, i + 1);
        return one;
      }
      assert EncodeEntries(dict[..i + 1]).value
             == EncodeEntries(dict[..i]).value + EncodeKey(dict[i].key) + XpcFormat.EncodeObject(dict[i].value).value;
    }
    assert dict[..|dict|] == dict;
    var payload := inner.Concat();
    r := WritePayload(writer, XPC_DICTIONARY, payload);
  }

  lemma {:induction false} EntriesError(es: seq<Entry>, n: nat)
    requires n <= |es| && EncodeEntries(es[..n]).Err?
    ensures EncodeEntries(es) == EncodeEntries(es[..n])
  {
    if n == |es| {
      assert es[..n] == es;
    } else {
      assert es[..|es| - 1][..n] == es[..n];
      EntriesError(es[..|es| - 1], n);
    }
  }

  method WriteHeader(writer: Writer, flags: int, len: int, id: int) returns (r: Result<(), Error>)
    requires writer.Contents() == []
    modifies writer
    ensures match Header(flags, len, id)
            case Ok(b) => r.Ok? && writer.Contents() == b
            case Err(e) => r == Err(e)
  {
    hide LE, Flatten, U32, U64;
    writer.WriteTag(WRAPPER_MAGIC);
    var f :- writer.WriteUInt32LE(flags);
    var l :- writer.WriteBigUInt64LE(len);
    var i :- writer.WriteBigUInt64LE(id);
    assert writer.Contents() == LE(WRAPPER_MAGIC, 4) + U32(flags).value + U64(len).value + U64(id).value;
    r := Ok(());
  }

  method EncodeMessage(flags: int, id: int, body: Option<seq<Entry>>) returns (r: Result<Bytes, Error>)
    ensures r == XpcFormat.EncodeMessage(flags, id, body)
  {
    hide LE, Flatten, Header, XpcFormat.EncodeDictionary;
    var writer := new Writer();
    if body.None? {
      var done :- WriteHeader(writer, flags, 0, id);
      var out := writer.Concat();
      return Ok(out);
    }
    var bodyWriter := new Writer();
    var encoded :- EncodeDictionary(bodyWriter, body.value);
    var bodyBuffer := bodyWriter.Concat();
    assert XpcFormat.EncodeDictionary(body.value).value == bodyBuffer;
    var done :- WriteHeader(writer, flags, |bodyBuffer| + 8, id);
    writer.WriteTag(OBJECT_MAGIC);
    writer.WriteTag(BODY_VERSION);
    writer.WriteBuffer(bodyBuffer);
    var out := writer.Concat();
    assert out == Header(flags, |bodyBuffer| + 8, id).value + LE(OBJECT_MAGIC, 4) + LE(BODY_VERSION, 4) + bodyBuffer;
    r := Ok(out);
  }

  /** Moves through a buffer. */
  class Reader {
    const buffer: Bytes
    var offset: nat

    constructor (b: Bytes)
      ensures buffer == b && offset == 0
    {
      buffer := b;
      offset := 0;
    }

    method ReadNumLE(width: nat) returns (r: Result<nat, Error>)
      modifies this
      ensures match ReadNum(buffer, old(offset), width)
              case Ok(x) => r == Ok(x.value) && offset == x.next
              case Err(e) => r == Err(e)
    {
      if offset + width > |buffer| {
        return Err(RangeError);
      }
      r := Ok(FromLE(buffer[offset..offset + width]));
      offset := offset + width;
    }

    method ReadByte() returns (r: Result<Byte, Error>)
      modifies this
      ensures match XpcFormat.ReadByte(buffer, old(offset))
              case Ok(x) => r == Ok(x.value) && offset == x.next
              case Err(e) => r == Err(e) && offset == old(offset)
    {
      if offset >= |buffer| {
        return Err(RangeError);
      }
      r := Ok(buffer[offset]);
      offset := offset + 1;
    }

    method ReadBytes(n: nat) returns (b: Bytes)
      modifies this
      ensures Read(b, offset) == XpcFormat.ReadBytes(buffer, old(offset), n)
    {
      b := JsSlice(buffer, offset, offset + n);
      offset := offset + n;
    }

    method Skip(n: nat)
      modifies this
      ensures offset == old(offset) + n
    {
      offset := offset + n;
    }
  }

  /** Reading the whole key is reading `done` and then the rest. */
  predicate Continues(whole: Result<Read<Bytes>, Error>, done: Bytes, rest: Result<Read<Bytes>, Error>) {
    if rest.Ok? then whole.Ok? && whole.value.value == done + rest.value.value && whole.value.next == rest.value.next
    else whole == rest
  }

  method ReadDictionaryKey(reader: Reader) returns (r: Result<Text, Error>)
    modifies reader
    ensures match ReadKey(reader.buffer, old(reader.offset))
            case Ok(x) => r == Ok(x.value) && reader.offset == x.next
            case Err(e) => r == Err(e)
  {
    hide Utf8.Decode;
    var bytes: Bytes := [];
    var b: Byte := 1;
    ghost var whole := ReadKeyBytes(reader.buffer, reader.offset);
    while b != 0
      invariant b != 0 ==> Continues(whole, bytes, ReadKeyBytes(reader.buffer, reader.offset))
      invariant b == 0 ==> whole.Ok? && whole.value.value == bytes && whole.value.next == reader.offset
      decreases if b != 0 then 1 else 0, |reader.buffer| - reader.offset
    {
      b :- reader.ReadByte();
      if b != 0 {
        bytes := bytes + [b];
      }
    }
    var key := Utf8.Decode(bytes);
    reader.Skip(CalcPadding(|key| + 1));
    r := Ok(key);
  }

  method DecodeObject(round: Rounding, reader: Reader) returns (r: Result<Xpc, Error>)
    modifies reader
    ensures match XpcFormat.DecodeObject(round, reader.buffer, old(reader.offset))
            case Ok(x) => r == Ok(x.value) && reader.offset == x.next
            case Err(e) => r == Err(e)
    decreases |reader.buffer|, |reader.buffer| - reader.offset, 0
  {
    hide FromLE, Signed, Utf8.Decode, Hex, JsSlice, DecodeItems, XpcFormat.DecodeDictionary;
    ghost var at := reader.offset;
    var tag :- reader.ReadNumLE(4);
    if tag == XPC_NULL {
      r := Ok(XNull);
    } else if tag == XPC_BOOL {
      var b :- reader.ReadByte();
      reader.Skip(3);
      r := Ok(XBool(b != 0));
    } else if tag == XPC_INT64 {
      var n :- reader.ReadNumLE(8);
      r := Ok(XInt(round(Signed(n, 8))));
    } else if tag == XPC_UINT64 {
      var n :- reader.ReadNumLE(8);
      r := Ok(XInt(round(n)));
    } else if tag == XPC_DOUBLE {
      if reader.offset + 8 > |reader.buffer| {
        return Err(RangeError);
      }
      var bits := reader.buffer[reader.offset..reader.offset + 8];
      reader.Skip(8);
      r := Ok(XReal(bits));
    } else if tag == XPC_DATE {
      var n :- reader.ReadNumLE(8);
      r := Ok(XDate(TruncDiv(Signed(n, 8), NANOS)));
    } else if tag == XPC_DATA {
      var len :- reader.ReadNumLE(4);
      var data := reader.ReadBytes(len);
      reader.Skip(CalcPadding(len));
      r := Ok(XData(data));
    } else if tag == XPC_STRING {
      var len :- reader.ReadNumLE(4);
      var data := reader.ReadBytes(len);
      reader.Skip(CalcPadding(len));
      r := Ok(XStr(Utf8.Decode(JsSlice(data, 0, IndexOfZero(data)))));
    } else if tag == XPC_UUID {
      var data := reader.ReadBytes(16);
      r := Ok(XStr(Hex(data)));
    } else if tag == XPC_ARRAY {
      var len :- reader.ReadNumLE(4);
      var payload := reader.ReadBytes(len);
      r := DecodeArray(round, payload);
    } else if tag == XPC_DICTIONARY {
      var len :- reader.ReadNumLE(4);
      var payload := reader.ReadBytes(len);
      var inner := new Reader(payload);
      var dict :- DecodeDictionary(round, inner);
      r := Ok(XDict(dict));
    } else {
      r := Err(TypeError);
    }
  }

  /** The array inside a length-delimited payload: a count, then that many objects. */
  function DecodedArray(round: Rounding, payload: Bytes): Result<Xpc, Error> {
    var count :- ReadNum(payload, 0, 4);
    var items :- DecodeItems(round, payload, count.next, count.value);
    Ok(XArr(items.value))
  }

  method DecodeArray(round: Rounding, payload: Bytes) returns (r: Result<Xpc, Error>)
    ensures r == DecodedArray(round, payload)
    decreases |payload|, |payload| + 1
  {
    hide FromLE, XpcFormat.DecodeObject;
    var reader := new Reader(payload);
    var n :- reader.ReadNumLE(4);
    var items: seq<Xpc> := [];
    for i := 0 to n
      invariant fresh(reader) && reader.buffer == payload && reader.offset >= 4
      invariant DecodeItems(round, payload, 4, i) == Ok(Read(items, reader.offset))
    {
      var one := DecodeObject(round, reader);
      if one.Err? {
        assert DecodeItems(round, payload, 4, i + 1) == Err(one.error);
        DecodeItemsError(round, payload, 4, i + 1, n);
        return Err(one.error);
      }
      items := items + [one.value];
    }
    r := Ok(XArr(items));
  }

  lemma {:induction false} DecodeItemsError(round: Rounding, b: Bytes, at: nat, m: nat, n: nat)
    requires m <= n && DecodeItems(round, b, at, m).Err?
    ensures DecodeItems(round, b, at, n) == DecodeItems(round, b, at, m)
  {
    hide XpcFormat.DecodeObject;
    if m < n {
      DecodeItemsError(round, b, at, m, n - 1);
    }
  }

  method DecodeDictionary(round: Rounding, reader: Reader) returns (r: Result<seq<Entry>, Error>)
    requires reader.offset == 0
    modifies reader
    ensures r == XpcFormat.DecodeDictionary(round, reader.buffer)
    decreases |reader.buffer|, |reader.buffer| + 1
  {
    hide FromLE, XpcFormat.DecodeObject, ReadKey, PutEntry;
    var n :- reader.ReadNumLE(4);
    var dict: seq<Entry> := [];
    for i := 0 to n
      invariant reader.offset >= 4
      invariant DecodeEntries(round, reader.buffer, 4, i) == Ok(Read(dict, reader.offset))
    {
      var key := ReadDictionaryKey(reader);
      if key.Err? {
        DecodeEntriesError(round, reader.buffer, 4, i + 1, n);
        return Err(key.error);
      }
      var one := DecodeObject(round, reader);
      if one.Err? {
        DecodeEntriesError(round, reader.buffer, 4, i + 1, n);
        return Err(one.error);
      }
      dict := PutEntry(dict, key.value, one.value);
    }
    r := Ok(dict);
  }

  lemma {:induction false} DecodeEntriesError(round: Rounding, b: Bytes, at: nat, m: nat, n: nat)
    requires m <= n && DecodeEntries(round, b, at, m).Err?
    ensures DecodeEntries(round, b, at, n) == DecodeEntries(round, b, at, m)
  {
    hide XpcFormat.DecodeObject, ReadKey, PutEntry;
    if m < n {
      DecodeEntriesError(round, b, at, m, n - 1);
    }
  }

  method DecodeMessage(round: Rounding, buffer: Bytes) returns (r: Result<Read<Message>, Error>)
    ensures r == XpcFormat.DecodeMessage(round, buffer)
  {
    hide FromLE, XpcFormat.DecodeObject;
    var consumed :- MessageLength(buffer);
    var reader := new Reader(buffer);
    var wrapper := reader.ReadNumLE(4);
    var flags := reader.ReadNumLE(4);
    var bodyLen := reader.ReadNumLE(8);
    var id := reader.ReadNumLE(8);
    if bodyLen.value == 0 {
      return Ok(Read(Message(flags.value, id.value, None), consumed));
    }
    var objMagic :- reader.ReadNumLE(4);
    var version :- reader.ReadNumLE(4);
    if objMagic != OBJECT_MAGIC || version != BODY_VERSION {
      return Err(FormatError);
    }
    var inner := new Reader(JsSlice(buffer, reader.offset, (reader.offset + bodyLen.value) - 8));
    var v :- DecodeObject(round, inner);
    if !IsBody(v) {
      return Err(TypeError);
    }
    r := Ok(Read(Message(flags.value, id.value, Some(v)), consumed));
  }
}
