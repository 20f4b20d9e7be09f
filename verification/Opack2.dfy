/** The OPACK2 serialisation: a value is a marker byte, its payload and, for containers, its elements. */
module OpackFormat {
  import opened Bytes
  import opened Wrappers
  import Utf8

  const OPACK2_NULL: Byte := 3
  const OPACK2_TRUE: Byte := 1
  const OPACK2_FALSE: Byte := 2
  const SMALL_INT_OFFSET: Byte := 8
  const SMALL_INT_MAX: Byte := 0x27
  const SMALL_LENGTH_MAX: Byte := 0x20
  const INT8_MARKER: Byte := 0x30
  const INT32_MARKER: Byte := 0x32
  const INT64_MARKER: Byte := 0x33
  const FLOAT_MARKER: Byte := 0x35
  const STRING_BASE: Byte := 0x40
  const BYTES_BASE: Byte := 0x70
  const SMALL_ARRAY_BASE: Byte := 0xd0
  const SMALL_ARRAY_MAX: nat := 15
  const VARIABLE_ARRAY_MARKER: Byte := 0xdf
  const SMALL_DICT_BASE: Byte := 0xe0
  const SMALL_DICT_MAX: nat := 15
  const VARIABLE_DICT_MARKER: Byte := 0xef

  type Four = b: Bytes | |b| == 4 witness [0, 0, 0, 0]

  datatype Value =
    | ONull                        // null and undefined
    | OBool(b: bool)
    | OInt(n: nat)                 // a non-negative integer
    | OFloat(bits: Four)           // any other number, as single-precision bytes
    | OStr(s: Text)
    | OBytes(bytes: Bytes)
    | OArr(items: seq<Value>)
    | ODict(entries: seq<Entry>)

  datatype Entry = Entry(key: Text, value: Value)

  datatype Error = TooLarge | UnexpectedEnd | BadMarker | BadKey | UnsafeInteger | TrailingBytes

  // ----- encoding -----

  function EncodeNumber(n: nat): Result<Bytes, Error> {
    if n <= SMALL_INT_MAX then Ok([SMALL_INT_OFFSET + n])
    else if n <= 0xff then Ok([INT8_MARKER, n])
    else if n <= 0xffff_ffff then Ok([INT32_MARKER] + LE(n, 4))
    else if n <= MAX_SAFE_INTEGER then Ok([INT64_MARKER] + LE(n, 8))
    else Err(TooLarge)
  }

  /** Length-optimized headers; strings and bytes differ in the base only. */
  function EncodeRun(base: Byte, b: Bytes): Result<Bytes, Error>
    requires base == STRING_BASE || base == BYTES_BASE
  {
    var n := |b|;
    if n <= SMALL_LENGTH_MAX then Ok([base + n] + b)
    else if n <= 0xff then Ok([base + 0x21, n] + b)
    else if n <= 0xffff then Ok([base + 0x22] + BE(n, 2) + b)
    else if n <= 0xffff_ffff then Ok([base + 0x23] + BE(n, 4) + b)
    else Err(TooLarge)
  }

  function ArrayMarker(n: nat): Byte {
    if n <= SMALL_ARRAY_MAX then SMALL_ARRAY_BASE + n else VARIABLE_ARRAY_MARKER
  }

  function ArrayEnd(n: nat): Bytes {
    if n <= SMALL_ARRAY_MAX then [] else [OPACK2_NULL]
  }

  function DictMarker(n: nat): Byte {
    if n < SMALL_DICT_MAX then SMALL_DICT_BASE + n else VARIABLE_DICT_MARKER
  }

  function DictEnd(n: nat): Bytes {
    if n < SMALL_DICT_MAX then [] else [OPACK2_NULL, OPACK2_NULL]
  }

  function Encode(v: Value): Result<Bytes, Error>
    decreases v, 0
  {
    match v
    case ONull => Ok([OPACK2_NULL])
    case OBool(b) => Ok([if b then OPACK2_TRUE else OPACK2_FALSE])
    case OInt(n) => EncodeNumber(n)
    case OFloat(bits) => Ok([FLOAT_MARKER] + bits)
    case OStr(s) => EncodeRun(STRING_BASE, Utf8.Encode(s))
    case OBytes(b) => EncodeRun(BYTES_BASE, b)
    case OArr(items) =>
      var parts :- EncodeItems(items);
      Ok([ArrayMarker(|items|)] + parts + ArrayEnd(|items|))
    case ODict(es) =>
      var parts :- EncodeEntries(es);
      Ok([DictMarker(|es|)] + parts + DictEnd(|es|))
  }

  function EncodeItems(items: seq<Value>): Result<Bytes, Error>
    decreases items, 0
  {
    if items == [] then Ok([])
    else
      var init :- EncodeItems(items[..|items| - 1]);
      var last :- Encode(items[|items| - 1]);
      Ok(init + last)
  }

  function EncodeEntries(es: seq<Entry>): Result<Bytes, Error>
    decreases es, 0
  {
    if es == [] then Ok([])
    else
      var init :- EncodeEntries(es[..|es| - 1]);
      var key :- EncodeRun(STRING_BASE, Utf8.Encode(es[|es| - 1].key));
      var value :- Encode(es[|es| - 1].value);
      Ok(init + key + value)
  }

  // ----- decoding -----

  datatype Read<+T> = Read(value: T, next: nat)

  function Take(data: Bytes, at: nat, n: nat): (r: Result<Read<Bytes>, Error>)
    ensures r.Ok? ==> |r.value.value| == n && r.value.next == at + n <= |data|
  {
    if at + n > |data| then Err(UnexpectedEnd) else Ok(Read(data[at..at + n], at + n))
  }

  /** A run of bytes whose length the marker gives, directly or through 1, 2 or 4 length bytes. */
  function TakeRun(data: Bytes, at: nat, code: nat): (r: Result<Read<Bytes>, Error>)
    requires code <= 0x23
    ensures r.Ok? ==> at <= r.value.next <= |data|
  {
    if code <= SMALL_LENGTH_MAX then Take(data, at, code)
    else
      var len :- Take(data, at, if code == 0x21 then 1 else if code == 0x22 then 2 else 4);
      Take(data, len.next, FromBE(len.value))
  }

  /** What a marker and its payload say: a scalar, or the start of a container. */
  datatype Head = Scalar(v: Value) | FixedArray(n: nat) | VariableArray | FixedDict(n: nat) | VariableDict

  function ReadHead(data: Bytes, at: nat): (r: Result<Read<Head>, Error>)
    ensures r.Ok? ==> at < r.value.next <= |data|
  {
    if at >= |data| then Err(UnexpectedEnd)
    else
      var m := data[at];
      var next := at + 1;
      if m == OPACK2_NULL then Ok(Read(Scalar(ONull), next))
      else if m == OPACK2_TRUE then Ok(Read(Scalar(OBool(true)), next))
      else if m == OPACK2_FALSE then Ok(Read(Scalar(OBool(false)), next))
      else if SMALL_INT_OFFSET <= m <= SMALL_INT_OFFSET + SMALL_INT_MAX then
        Ok(Read(Scalar(OInt(m - SMALL_INT_OFFSET)), next))
      else if m == INT8_MARKER then
        var b :- Take(data, next, 1);
        Ok(Read(Scalar(OInt(b.value[0])), b.next))
      else if m == INT32_MARKER then
        var b :- Take(data, next, 4);
        Ok(Read(Scalar(OInt(FromLE(b.value))), b.next))
      else if m == INT64_MARKER then
        var b :- Take(data, next, 8);
        if FromLE(b.value) > MAX_SAFE_INTEGER then Err(UnsafeInteger)
        else Ok(Read(Scalar(OInt(FromLE(b.value))), b.next))
      else if m == FLOAT_MARKER then
        var b :- Take(data, next, 4);
        Ok(Read(Scalar(OFloat(b.value)), b.next))
      else if STRING_BASE <= m <= STRING_BASE + 0x23 then
        var b :- TakeRun(data, next, m - STRING_BASE);
        Ok(Read(Scalar(OStr(Utf8.Decode(b.value))), b.next))
      else if BYTES_BASE <= m <= BYTES_BASE + 0x23 then
        var b :- TakeRun(data, next, m - BYTES_BASE);
        Ok(Read(Scalar(OBytes(b.value)), b.next))
      else if SMALL_ARRAY_BASE <= m < VARIABLE_ARRAY_MARKER then Ok(Read(FixedArray(m - SMALL_ARRAY_BASE), next))
      else if m == VARIABLE_ARRAY_MARKER then Ok(Read(VariableArray, next))
      else if SMALL_DICT_BASE <= m < VARIABLE_DICT_MARKER then Ok(Read(FixedDict(m - SMALL_DICT_BASE), next))
      else if m == VARIABLE_DICT_MARKER then Ok(Read(VariableDict, next))
      else Err(BadMarker)
  }

  /** `result[key] = value`. */
  function Put(es: seq<Entry>, key: Text, value: Value): seq<Entry> {
    if es == [] then [Entry(key, value)]
    else if es[0].key == key then [Entry(key, value)] + es[1..]
    else [es[0]] + Put(es[1..], key, value)
  }

  function Decode(data: Bytes, at: nat): (r: Result<Read<Value>, Error>)
    ensures r.Ok? ==> at < r.value.next <= |data|
    decreases |data| - at, 0
  {
    var h :- ReadHead(data, at);
    match h.value
    case Scalar(v) => Ok(Read(v, h.next))
    case FixedArray(n) =>
      var items :- DecodeFixedArray(data, h.next, n);
      Ok(Read(OArr(items.value), items.next))
    case VariableArray =>
      var items :- DecodeVariableArray(data, h.next, []);
      Ok(Read(OArr(items.value), items.next))
    case FixedDict(n) =>
      var es :- DecodeFixedDict(data, h.next, n);
      Ok(Read(ODict(es.value), es.next))
    case VariableDict =>
      var es :- DecodeVariableDict(data, h.next, []);
      Ok(Read(ODict(es.value), es.next))
  }

  function DecodeFixedArray(data: Bytes, at: nat, n: nat): (r: Result<Read<seq<Value>>, Error>)
    ensures r.Ok? ==> at <= r.value.next && (at <= |data| ==> r.value.next <= |data|)
    decreases |data| - at, n + 1
  {
    if n == 0 then Ok(Read([], at))
    else
      var init :- DecodeFixedArray(data, at, n - 1);
      var last :- Decode(data, init.next);
      Ok(Read(init.value + [last.value], last.next))
  }

  /** Elements up to the first null, after the ones already in `result`. */
  function DecodeVariableArray(data: Bytes, at: nat, result: seq<Value>): (r: Result<Read<seq<Value>>, Error>)
    ensures r.Ok? ==> at < r.value.next <= |data|
    decreases |data| - at, 1
  {
    var v :- Decode(data, at);
    if v.value.ONull? then Ok(Read(result, v.next)) else DecodeVariableArray(data, v.next, result + [v.value])
  }

  function DecodeFixedDict(data: Bytes, at: nat, n: nat): (r: Result<Read<seq<Entry>>, Error>)
    ensures r.Ok? ==> at <= r.value.next && (at <= |data| ==> r.value.next <= |data|)
    decreases |data| - at, n + 1
  {
    if n == 0 then Ok(Read([], at))
    else
      var init :- DecodeFixedDict(data, at, n - 1);
      var key :- Decode(data, init.next);
      if !key.value.OStr? then Err(BadKey)
      else
        var value :- Decode(data, key.next);
        Ok(Read(Put(init.value, key.value.s, value.value), value.next))
  }

  /** Entries up to a pair of nulls. */
  function DecodeVariableDict(data: Bytes, at: nat, result: seq<Entry>): (r: Result<Read<seq<Entry>>, Error>)
    ensures r.Ok? ==> at < r.value.next <= |data|
    decreases |data| - at, 1
  {
    var key :- Decode(data, at);
    var value :- Decode(data, key.next);
    if key.value.ONull? && value.value.ONull? then Ok(Read(result, value.next))
    else if !key.value.OStr? then Err(BadKey)
    else DecodeVariableDict(data, value.next, Put(result, key.value.s, value.value))
  }

  function Loads(data: Bytes): Result<Value, Error> {
    var r :- Decode(data, 0);
    if r.next != |data| then Err(TrailingBytes) else Ok(r.value)
  }
}

module Opack2 {
  import opened Bytes
  import opened Wrappers
  import opened OpackFormat
  import Utf8

  method Encode(v: Value) returns (r: Result<Bytes, Error>)
    ensures r == OpackFormat.Encode(v)
    decreases v, 0
  {
    match v
    case OArr(items) => r := EncodeArray(items);
    case ODict(es) => r := EncodeDict(es);
    case _ => r := OpackFormat.Encode(v);
  }

  method EncodeArray(items: seq<Value>) returns (r: Result<Bytes, Error>)
    ensures r == OpackFormat.Encode(OArr(items))
    decreases items, 0
  {
    hide ArrayMarker, ArrayEnd, Flatten, EncodeItems;
    var parts: seq<Bytes> := [[ArrayMarker(|items|)]];
    ItemsMore(items, 0);
    OnePart([ArrayMarker(|items|)]);
    for i := 0 to |items|
      invariant EncodeItems(items[..i]).Ok?
      invariant Flatten(parts) == [ArrayMarker(|items|)] + EncodeItems(items[..i]).value
    {
      ItemsMore(items, i);
      var one := Encode(items[i]);
      if one.Err? {
        ItemsError(items, i + 1);
        return one;
      }
      MoreParts(parts, one.value);
      parts := parts + [one.value];
    }
    assert items[..|items|] == items;
    r := Ok(Flatten(parts) + ArrayEnd(|items|));
  }

  lemma OnePart(p: Bytes)
    ensures Flatten([p]) == p
  {
    var one: seq<Bytes> := [p];
    assert one[..0] == [] && Flatten(one) == [] + p;
  }

  lemma MoreParts(parts: seq<Bytes>, p: Bytes)
    ensures Flatten(parts + [p]) == Flatten(parts) + p
  {
    assert (parts + [p])[..|parts|] == parts;
  }

  lemma ItemsMore(items: seq<Value>, i: nat)
    requires i <= |items|
    ensures i == 0 ==> EncodeItems(items[..0]) == Ok([])
    ensures i < |items| ==>
              EncodeItems(items[..i + 1]) ==
              match EncodeItems(items[..i])
              case Err(e) => Err(e)
              case Ok(init) =>
                (match OpackFormat.Encode(items[i])
                 case Err(e) => Err(e)
                 case Ok(last) => Ok(init + last))
  {
    hide OpackFormat.Encode;
    if i < |items| {
      assert items[..i + 1][..i] == items[..i];
    }
  }

  lemma {:induction false} ItemsError(items: seq<Value>, n: nat)
    requires n <= |items| && EncodeItems(items[..n]).Err?
    ensures EncodeItems(items) == EncodeItems(items[..n])
  {
    hide OpackFormat.Encode;
    if n == |items| {
      assert items[..n] == items;
    } else {
      assert items[..|items| - 1][..n] == items[..n];
      ItemsError(items[..|items| - 1], n);
    }
  }

  method EncodeDict(es: seq<Entry>) returns (r: Result<Bytes, Error>)
    ensures r == OpackFormat.Encode(ODict(es))
    decreases es, 0
  {
    hide DictMarker, DictEnd, EncodeRun, Flatten, EncodeEntries, Utf8.Encode;
    var parts: seq<Bytes> := [[DictMarker(|es|)]];
    EntriesMore(es, 0);
    OnePart([DictMarker(|es|)]);
    for i := 0 to |es|
      invariant EncodeEntries(es[..i]).Ok?
      invariant Flatten(parts) == [DictMarker(|es|)] + EncodeEntries(es[..i]).value
    {
      EntriesMore(es, i);
      var key := EncodeRun(STRING_BASE, Utf8.Encode(es[i].key));
      if key.Err? {
        EntriesError(es, i + 1);
        return key;
      }
      var value := Encode(es[i].value);
      if value.Err? {
        EntriesError(es, i + 1);
        return value;
      }
      MoreParts(parts, key.value);
      MoreParts(parts + [key.value], value.value);
      parts := parts + [key.value] + [value.value];
    }
    assert es[..|es|] == es;
    r := Ok(Flatten(parts) + DictEnd(|es|));
  }

  lemma EntriesMore(es: seq<Entry>, i: nat)
    requires i <= |es|
    ensures i == 0 ==> EncodeEntries(es[..0]) == Ok([])
    ensures i < |es| ==>
              EncodeEntries(es[..i + 1]) ==
              match EncodeEntries(es[..i])
              case Err(e) => Err(e)
              case Ok(init) =>
                match EncodeRun(STRING_BASE, Utf8.Encode(es[i].key))
                case Err(e) => Err(e)
                case Ok(key) =>
                  (match OpackFormat.Encode(es[i].value)
                   case Err(e) => Err(e)
                   case Ok(value) => Ok(init + key + value))
  {
    hide OpackFormat.Encode, EncodeRun;
    if i < |es| {
      assert es[..i + 1][..i] == es[..i];
    }
  }

  lemma {:induction false} EntriesError(es: seq<Entry>, n: nat)
    requires n <= |es| && EncodeEntries(es[..n]).Err?
    ensures EncodeEntries(es) == EncodeEntries(es[..n])
  {
    hide OpackFormat.Encode, EncodeRun;
    if n == |es| {
      assert es[..n] == es;
    } else {
      assert es[..|es| - 1][..n] == es[..n];
      EntriesError(es[..|es| - 1], n);
    }
  }

  method Decode(data: Bytes, at: nat) returns (r: Result<Read<Value>, Error>)
    ensures r == OpackFormat.Decode(data, at)
    decreases |data| - at, 0
  {
    hide ReadHead;
    var h :- ReadHead(data, at);
    match h.value
    case Scalar(v) => r := Ok(Read(v, h.next));
    case FixedArray(n) =>
      var items :- DecodeFixedArray(data, h.next, n);
      r := Ok(Read(OArr(items.value), items.next));
    case VariableArray =>
      var items :- DecodeVariableArray(data, h.next);
      r := Ok(Read(OArr(items.value), items.next));
    case FixedDict(n) =>
      var es :- DecodeFixedDict(data, h.next, n);
      r := Ok(Read(ODict(es.value), es.next));
    case VariableDict =>
      var es :- DecodeVariableDict(data, h.next);
      r := Ok(Read(ODict(es.value), es.next));
  }

  method DecodeFixedArray(data: Bytes, at: nat, n: nat) returns (r: Result<Read<seq<Value>>, Error>)
    ensures r == OpackFormat.DecodeFixedArray(data, at, n)
    decreases |data| - at, 1
  {
    hide ReadHead, OpackFormat.Decode;
    var result: seq<Value> := [];
    var offset := at;
    for i := 0 to n
      invariant OpackFormat.DecodeFixedArray(data, at, i) == Ok(Read(result, offset))
    {
      var one := Decode(data, offset);
      if one.Err? {
        FixedArrayError(data, at, i + 1, n);
        return Err(one.error);
      }
      result := result + [one.value.value];
      offset := one.value.next;
    }
    r := Ok(Read(result, offset));
  }

  lemma {:induction false} FixedArrayError(data: Bytes, at: nat, m: nat, n: nat)
    requires m <= n && OpackFormat.DecodeFixedArray(data, at, m).Err?
    ensures OpackFormat.DecodeFixedArray(data, at, n) == OpackFormat.DecodeFixedArray(data, at, m)
  {
    hide OpackFormat.Decode;
    if m < n {
      FixedArrayError(data, at, m, n - 1);
    }
  }

  method DecodeVariableArray(data: Bytes, at: nat) returns (r: Result<Read<seq<Value>>, Error>)
    requires at <= |data|
    ensures r == OpackFormat.DecodeVariableArray(data, at, [])
    decreases |data| - at, 1
  {
    hide OpackFormat.Decode;
    var result: seq<Value> := [];
    var offset := at;
    var done := false;
    while !done
      invariant at <= offset <= |data|
      invariant OpackFormat.DecodeVariableArray(data, at, [])
                == if done then Ok(Read(result, offset)) else OpackFormat.DecodeVariableArray(data, offset, result)
      decreases if done then 0 else 1, |data| - offset
    {
      var one :- Decode(data, offset);
      offset := one.next;
      if one.value.ONull? {
        done := true;
      } else {
        result := result + [one.value];
      }
    }
    r := Ok(Read(result, offset));
  }

  method DecodeFixedDict(data: Bytes, at: nat, n: nat) returns (r: Result<Read<seq<Entry>>, Error>)
    ensures r == OpackFormat.DecodeFixedDict(data, at, n)
    decreases |data| - at, 1
  {
    hide OpackFormat.Decode, Put;
    var result: seq<Entry> := [];
    var offset := at;
    for i := 0 to n
      invariant at <= offset
      invariant OpackFormat.DecodeFixedDict(data, at, i) == Ok(Read(result, offset))
    {
      var key := Decode(data, offset);
      if key.Err? || !key.value.value.OStr? {
        FixedDictError(data, at, i + 1, n);
        return Err(if key.Err? then key.error else BadKey);
      }
      var value := Decode(data, key.value.next);
      if value.Err? {
        FixedDictError(data, at, i + 1, n);
        return Err(value.error);
      }
      result := Put(result, key.value.value.s, value.value.value);
      offset := value.value.next;
    }
    r := Ok(Read(result, offset));
  }

  lemma {:induction false} FixedDictError(data: Bytes, at: nat, m: nat, n: nat)
    requires m <= n && OpackFormat.DecodeFixedDict(data, at, m).Err?
    ensures OpackFormat.DecodeFixedDict(data, at, n) == OpackFormat.DecodeFixedDict(data, at, m)
  {
    hide OpackFormat.Decode, Put;
    if m < n {
      FixedDictError(data, at, m, n - 1);
    }
  }

  method DecodeVariableDict(data: Bytes, at: nat) returns (r: Result<Read<seq<Entry>>, Error>)
    requires at <= |data|
    ensures r == OpackFormat.DecodeVariableDict(data, at, [])
    decreases |data| - at, 1
  {
    hide OpackFormat.Decode, Put;
    var result: seq<Entry> := [];
    var offset := at;
    var done := false;
    while !done
      invariant at <= offset <= |data|
      invariant OpackFormat.DecodeVariableDict(data, at, [])
                == if done then Ok(Read(result, offset)) else OpackFormat.DecodeVariableDict(data, offset, result)
      decreases if done then 0 else 1, |data| - offset
    {
      var key :- Decode(data, offset);
      var value :- Decode(data, key.next);
      offset := value.next;
      if key.value.ONull? && value.value.ONull? {
        done := true;
      } else if !key.value.OStr? {
        return Err(BadKey);
      } else {
        result := Put(result, key.value.s, value.value);
      }
    }
    r := Ok(Read(result, offset));
  }

  method Loads(data: Bytes) returns (r: Result<Value, Error>)
    ensures r == OpackFormat.Loads(data)
  {
    var decoded :- Decode(data, 0);
    if decoded.next != |data| {
      return Err(TrailingBytes);
    }
    r := Ok(decoded.value);
  }
}
