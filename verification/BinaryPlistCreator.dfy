/**
 * The binary plist creator: collection of the object table, the per-type encoders, the offset
 * table and the trailer.  Functions say which bytes are written; the class writes them the way
 * the source does, through growing tables and buffers filled in place.
 */
module BinaryPlistFormat {
  import opened Bytes
  import opened PlistGraph
  import opened Wrappers

  datatype Error = RangeError | TypeError | FormatError

  const MAGIC: Bytes := [0x62, 0x70, 0x6c, 0x69, 0x73, 0x74, 0x30, 0x30]
  const TRAILER_SIZE: nat := 32

  const T_INT: Byte := 0x10
  const T_REAL: Byte := 0x20
  const T_DATE: Byte := 0x30
  const T_DATA: Byte := 0x40
  const T_ASCII: Byte := 0x50
  const T_UNICODE: Byte := 0x60
  const T_UID: Byte := 0x80
  const T_ARRAY: Byte := 0xa0
  const T_DICT: Byte := 0xd0

  // ----- collection -----

  function Unvisited(h: Heap, table: seq<Value>): set<nat> {
    set id | id in h.Keys && Obj(id) !in table
  }

  /** The object table after visiting `v`: preorder, each value once. */
  function Collect(h: Heap, table: seq<Value>, v: Value): (r: seq<Value>)
    requires ClosedHeap(h) && InHeap(h, v)
    ensures table <= r
    decreases Unvisited(h, table), 0
  {
    if v in table then table
    else if v.Obj? then
      assert v.id in Unvisited(h, table) && v.id !in Unvisited(h, table + [v]);
      CollectAll(h, table + [v], Kids(h[v.id]))
    else table + [v]
  }

  function CollectAll(h: Heap, table: seq<Value>, vs: seq<Value>): (r: seq<Value>)
    requires ClosedHeap(h) && forall v :: v in vs ==> InHeap(h, v)
    ensures table <= r
    decreases Unvisited(h, table), |vs|
  {
    if vs == [] then table
    else
      var t := Collect(h, table, vs[0]);
      assert Unvisited(h, t) <= Unvisited(h, table);
      CollectAll(h, t, vs[1..])
  }

  /** Position of `v` in the table; 0 when it is absent, as `?? 0` makes it. */
  function IndexOf(table: seq<Value>, v: Value): (i: nat)
    ensures v in table ==> i < |table| && table[i] == v
  {
    if table == [] then 0
    else if table[|table| - 1] == v then |table| - 1
    else IndexOf(table[..|table| - 1], v)
  }

  // ----- encoders -----

  function MinByteSize(n: int): (w: nat)
    ensures w == 1 || w == 2 || w == 4 || w == 8
  {
    if n < 256 then 1 else if n < 0x1_0000 then 2 else if n < TWO32 then 4 else 8
  }

  /** `writeUIntBE`: a value that does not fit throws. */
  function WriteUInt(n: int, w: nat): (r: Result<Bytes, Error>)
    ensures r.Ok? ==> |r.value| == w
  {
    if 0 <= n < Pow256(w) then Ok(BE(n, w)) else Err(RangeError)
  }

  function EncodeNums(ns: seq<nat>, w: nat): (r: Result<Bytes, Error>)
    ensures if r.Ok? then |r.value| == |ns| * w else r.error == RangeError
  {
    if ns == [] then Ok([])
    else
      var init :- EncodeNums(ns[..|ns| - 1], w);
      var last :- WriteUInt(ns[|ns| - 1], w);
      Ok(init + last)
  }

  function Refs(table: seq<Value>, vs: seq<Value>): (r: seq<nat>)
    ensures |r| == |vs|
  {
    seq(|vs|, i requires 0 <= i < |vs| => IndexOf(table, vs[i]))
  }

  function IntHeader(n: nat): Result<Bytes, Error> {
    if n < 256 then Ok([T_INT, n])
    else if n < 0x1_0000 then Ok([T_INT + 1] + BE(n, 2))
    else if n < TWO32 then Ok([T_INT + 2] + BE(n, 4))
    else Err(RangeError)
  }

  /** Marker byte, followed by the length when it does not fit in the low nibble. */
  function Header(kind: Byte, length: nat): Result<Bytes, Error>
    requires kind <= 0xf0
  {
    if length < 15 then Ok([kind + length])
    else
      var size :- IntHeader(length);
      Ok([kind + 15] + size)
  }

  function EncodeInt64(n: int): Result<Bytes, Error> {
    if -TWO63 <= n < TWO63 then Ok([T_INT + 3] + BE(Unsigned(n, 8), 8)) else Err(RangeError)
  }

  function EncodeNumber(n: int): Result<Bytes, Error> {
    if 0 <= n <= 255 then Ok([T_INT, n])
    else if -128 <= n <= 127 then Ok([T_INT] + BE(Unsigned(n, 1), 1))
    else if -32768 <= n <= 32767 then Ok([T_INT + 1] + BE(Unsigned(n, 2), 2))
    else if -TWO31 <= n < TWO31 then Ok([T_INT + 2] + BE(Unsigned(n, 4), 4))
    else EncodeInt64(n)
  }

  function EncodeUid(n: int): Result<Bytes, Error> {
    if n <= 255 then
      var b :- WriteUInt(n, 1);
      Ok([T_UID] + b)
    else if n <= 65535 then
      var b :- WriteUInt(n, 2);
      Ok([T_UID + 1] + b)
    else
      var b :- WriteUInt(n, 4);
      Ok([T_UID + 2] + b)
  }

  predicate IsAscii(s: Text) {
    forall i :: 0 <= i < |s| ==> s[i] < 0x80
  }

  function AsciiBytes(s: Text): (r: Bytes)
    requires IsAscii(s)
    ensures |r| == |s|
  {
    seq(|s|, i requires 0 <= i < |s| => s[i])
  }

  function Utf16BE(s: Text): (r: Bytes)
    ensures |r| == 2 * |s|
  {
    if s == [] then [] else Utf16BE(s[..|s| - 1]) + BE(s[|s| - 1], 2)
  }

  function EncodeString(s: Text): Result<Bytes, Error> {
    if IsAscii(s) then
      var header :- Header(T_ASCII, |s|);
      Ok(header + AsciiBytes(s))
    else
      var header :- Header(T_UNICODE, |s|);
      Ok(header + Utf16BE(s))
  }

  function EncodeData(bytes: Bytes): Result<Bytes, Error> {
    var header :- Header(T_DATA, |bytes|);
    Ok(header + bytes)
  }

  function EncodeArray(table: seq<Value>, refSize: nat, items: seq<Value>): Result<Bytes, Error> {
    var header :- Header(T_ARRAY, |items|);
    var refs :- EncodeNums(Refs(table, items), refSize);
    Ok(header + refs)
  }

  function EntryKeys(es: seq<Entry>): (r: seq<Value>)
    ensures |r| == |es|
  {
    seq(|es|, i requires 0 <= i < |es| => Str(es[i].key))
  }

  function EntryValues(es: seq<Entry>): (r: seq<Value>)
    ensures |r| == |es|
  {
    seq(|es|, i requires 0 <= i < |es| => es[i].value)
  }

  function EncodeDict(table: seq<Value>, refSize: nat, es: seq<Entry>): Result<Bytes, Error> {
    var header :- Header(T_DICT, |es|);
    var keys :- EncodeNums(Refs(table, EntryKeys(es)), refSize);
    var values :- EncodeNums(Refs(table, EntryValues(es)), refSize);
    Ok(header + keys + values)
  }

  function EncodeObject(h: Heap, table: seq<Value>, refSize: nat, v: Value): Result<Bytes, Error>
    requires InHeap(h, v)
  {
    match v
    case Null => Ok([0])
    case Bool(b) => Ok([if b then 9 else 8])
    case Num(n) => EncodeNumber(n)
    case Big(n) => EncodeInt64(n)
    case Real(bits) => Ok([T_REAL + 3] + bits)
    case Str(s) => EncodeString(s)
    case Obj(id) =>
      match h[id]
      case Arr(items) => EncodeArray(table, refSize, items)
      case Dict(es) => EncodeDict(table, refSize, es)
      case Data(bytes) => EncodeData(bytes)
      case Uid(n) => EncodeUid(n)
  }

  // ----- layout -----

  function EncodeAll(h: Heap, table: seq<Value>, refSize: nat, vs: seq<Value>): (r: Result<seq<Bytes>, Error>)
    requires forall v :: v in vs ==> InHeap(h, v)
    ensures r.Ok? ==> |r.value| == |vs|
  {
    if vs == [] then Ok([])
    else
      var init :- EncodeAll(h, table, refSize, vs[..|vs| - 1]);
      var last :- EncodeObject(h, table, refSize, vs[|vs| - 1]);
      Ok(init + [last])
  }

  /** Where each object starts; the header comes first. */
  function Offsets(parts: seq<Bytes>): (r: seq<nat>)
    ensures |r| == |parts|
  {
    if parts == [] then []
    else Offsets(parts[..|parts| - 1]) + [|MAGIC| + |Flatten(parts[..|parts| - 1])|]
  }

  function Trailer(offsetSize: Byte, refSize: Byte, numObjects: nat, tableOffset: nat): (t: Bytes)
    ensures |t| == TRAILER_SIZE
  {
    [0, 0, 0, 0, 0, 0, offsetSize, refSize] + BE(numObjects, 8) + BE(0, 8) + BE(tableOffset, 8)
  }

  function Assemble(table: seq<Value>, refSize: Byte, parts: seq<Bytes>): Result<Bytes, Error> {
    var body := Flatten(parts);
    var offsetSize := MinByteSize(|body|);
    var offsetTable :- EncodeNums(Offsets(parts), offsetSize);
    Ok(MAGIC + body + offsetTable + Trailer(offsetSize, refSize, |table|, |MAGIC| + |body|))
  }

  function RefSize(table: seq<Value>): nat {
    MinByteSize(|table| - 1)
  }

  /** The bytes `createBinaryPlist(root)` returns, or the error it throws. */
  function CreateBytes(h: Heap, root: Value): Result<Bytes, Error>
    requires ClosedHeap(h) && InHeap(h, root)
  {
    var table := Collect(h, [], root);
    CollectInHeap(h, [], root);
    var parts :- EncodeAll(h, table, RefSize(table), table);
    Assemble(table, RefSize(table), parts)
  }

  lemma {:induction false} CollectInHeap(h: Heap, table: seq<Value>, v: Value)
    requires ClosedHeap(h) && InHeap(h, v) && forall x :: x in table ==> InHeap(h, x)
    ensures forall x :: x in Collect(h, table, v) ==> InHeap(h, x)
    decreases Unvisited(h, table), 0
  {
    if v !in table && v.Obj? {
      assert v.id in Unvisited(h, table) && v.id !in Unvisited(h, table + [v]);
      CollectAllInHeap(h, table + [v], Kids(h[v.id]));
    }
  }

  lemma {:induction false} CollectAllInHeap(h: Heap, table: seq<Value>, vs: seq<Value>)
    requires ClosedHeap(h) && (forall v :: v in vs ==> InHeap(h, v)) && forall x :: x in table ==> InHeap(h, x)
    ensures forall x :: x in CollectAll(h, table, vs) ==> InHeap(h, x)
    decreases Unvisited(h, table), |vs|
  {
    if vs != [] {
      CollectInHeap(h, table, vs[0]);
      assert Unvisited(h, Collect(h, table, vs[0])) <= Unvisited(h, table);
      CollectAllInHeap(h, Collect(h, table, vs[0]), vs[1..]);
    }
  }
}

module BinaryPlistCreator {
  import opened Bytes
  import opened PlistGraph
  import opened Wrappers
  import opened BinaryPlistFormat

  lemma {:induction false} EncodeNumsPrefixErr(ns: seq<nat>, w: nat, i: nat)
    requires i <= |ns| && EncodeNums(ns[..i], w).Err?
    ensures EncodeNums(ns, w) == Err(RangeError)
    decreases |ns|
  {
    if i < |ns| {
      assert ns[..|ns| - 1][..i] == ns[..i];
      EncodeNumsPrefixErr(ns[..|ns| - 1], w, i);
    } else {
      assert ns[..i] == ns;
    }
  }

  lemma EncodeNumsStep(ns: seq<nat>, w: nat, i: nat)
    requires i < |ns| && EncodeNums(ns[..i], w).Ok?
    ensures EncodeNums(ns[..i + 1], w) ==
            (if ns[i] < Pow256(w) then Ok(EncodeNums(ns[..i], w).value + BE(ns[i], w)) else Err(RangeError))
  {
    assert ns[..i + 1][..i] == ns[..i];
  }

  class BinaryPlistCreator {
    var objectTable: seq<Value>
    var objectRefMap: map<Value, nat>
    var objectRefSize: nat
    var offsetSize: nat
    const heap: Heap
    const rootObject: Value

    /** The identity map and the table always agree, and no value is listed twice. */
    ghost predicate Valid()
      reads this
    {
      && ClosedHeap(heap) && InHeap(heap, rootObject)
      && (forall v :: v in objectTable ==> InHeap(heap, v))
      && (forall v :: v in objectRefMap <==> v in objectTable)
      && (forall v :: v in objectRefMap ==> objectRefMap[v] == IndexOf(objectTable, v))
    }

    constructor (h: Heap, root: Value)
      requires ClosedHeap(h) && InHeap(h, root)
      ensures Valid() && objectTable == [] && heap == h && rootObject == root
    {
      heap, rootObject := h, root;
      objectTable, objectRefMap := [], map[];
      objectRefSize, offsetSize := 0, 0;
    }

    method AddToTable(value: Value)
      requires Valid() && InHeap(heap, value) && value !in objectTable
      modifies this`objectTable, this`objectRefMap
      ensures Valid() && objectTable == old(objectTable) + [value]
    {
      var id := |objectTable|;
      objectTable := objectTable + [value];
      objectRefMap := objectRefMap[value := id];
      assert objectTable[..|objectTable| - 1] == old(objectTable);
    }

    method CollectObjectsRecursive(value: Value)
      requires Valid() && InHeap(heap, value)
      modifies this`objectTable, this`objectRefMap
      ensures Valid()
      ensures objectTable == old(Collect(heap, objectTable, value))
      decreases Unvisited(heap, objectTable), 0
    {
      if value in objectRefMap {
        return;
      }
      assert value.Obj? ==> value.id in Unvisited(heap, objectTable);
      AddToTable(value);
      assert value.Obj? ==> value.id !in Unvisited(heap, objectTable);
      if value.Obj? {
        match heap[value.id]
        case Arr(items) => CollectItems(items);
        case Dict(entries) => CollectEntries(entries);
        case Data(_) =>
        case Uid(_) =>
      }
    }

    method CollectItems(items: seq<Value>)
      requires Valid() && forall v :: v in items ==> InHeap(heap, v)
      modifies this`objectTable, this`objectRefMap
      ensures Valid()
      ensures objectTable == old(CollectAll(heap, objectTable, items))
      decreases Unvisited(heap, objectTable), 1
    {
      for i := 0 to |items|
        invariant Valid() && old(objectTable) <= objectTable
        invariant CollectAll(heap, objectTable, items[i..]) == old(CollectAll(heap, objectTable, items))
      {
        assert items[i..][0] == items[i] && items[i..][1..] == items[i + 1..];
        assert Unvisited(heap, objectTable) <= old(Unvisited(heap, objectTable));
        CollectObjectsRecursive(items[i]);
      }
      assert items[|items|..] == [];
    }

    method CollectEntries(entries: seq<Entry>)
      requires Valid() && forall v :: v in DictKids(entries) ==> InHeap(heap, v)
      modifies this`objectTable, this`objectRefMap
      ensures Valid()
      ensures objectTable == old(CollectAll(heap, objectTable, DictKids(entries)))
      decreases Unvisited(heap, objectTable), 1
    {
      for i := 0 to |entries|
        invariant Valid() && old(objectTable) <= objectTable
        invariant forall v :: v in DictKids(entries[i..]) ==> v in DictKids(entries)
        invariant CollectAll(heap, objectTable, DictKids(entries[i..]))
               == old(CollectAll(heap, objectTable, DictKids(entries)))
      {
        ghost var rest := DictKids(entries[i + 1..]);
        assert entries[i..][1..] == entries[i + 1..];
        CollectPair(heap, objectTable, Str(entries[i].key), entries[i].value, rest);
        DictKidsMembers(entries, i);
        assert Unvisited(heap, objectTable) <= old(Unvisited(heap, objectTable));
        CollectObjectsRecursive(Str(entries[i].key));
        assert Unvisited(heap, objectTable) <= old(Unvisited(heap, objectTable));
        CollectObjectsRecursive(entries[i].value);
      }
      assert entries[|entries|..] == [];
    }

    method CollectObjects()
      requires Valid() && objectTable == []
      modifies this`objectTable, this`objectRefMap, this`objectRefSize
      ensures Valid()
      ensures objectTable == Collect(heap, [], rootObject)
      ensures objectRefSize == RefSize(objectTable)
    {
      CollectObjectsRecursive(rootObject);
      objectRefSize := MinByteSize(|objectTable| - 1);
    }

    static method WriteOffsetToBuffer(buffer: array<Byte>, position: nat, value: nat, size: nat) returns (ok: bool)
      requires size in {1, 2, 4, 8} && position + size <= buffer.Length
      modifies buffer
      ensures ok <==> value < Pow256(size)
      ensures !ok ==> buffer[..] == old(buffer[..])
      ensures ok ==> buffer[..] == old(buffer[..position]) + BE(value, size) + old(buffer[position + size..])
    {
      ok := value < Pow256(size);
      if ok {
        var bytes := BE(value, size);
        forall k | 0 <= k < size {
          buffer[position + k] := bytes[k];
        }
      }
    }

    /** Writes number `i` of `ns` at its place in the buffer. */
    static method PutNumber(buffer: array<Byte>, ghost ns: seq<nat>, i: nat, value: nat, size: nat) returns (ok: bool)
      requires size in {1, 2, 4, 8} && i < |ns| && value == ns[i] && buffer.Length == |ns| * size
      requires i * size <= buffer.Length
      requires EncodeNums(ns[..i], size) == Ok(buffer[..i * size])
      modifies buffer
      ensures i * size + size == (i + 1) * size <= buffer.Length
      ensures ok ==> EncodeNums(ns[..i + 1], size) == Ok(buffer[..(i + 1) * size])
      ensures !ok ==> EncodeNums(ns, size) == Err(RangeError)
    {
      MulMono(i + 1, |ns|, size);
      assert (i + 1) * size == i * size + size;
      EncodeNumsStep(ns, size, i);
      ghost var prefix := buffer[..i * size];
      ok := WriteOffsetToBuffer(buffer, i * size, value, size);
      if !ok {
        EncodeNumsPrefixErr(ns, size, i + 1);
      } else {
        assert buffer[..(i + 1) * size] == prefix + BE(value, size);
      }
    }

    method RefOf(v: Value) returns (ref: nat)
      requires Valid()
      ensures ref == IndexOf(objectTable, v)
    {
      IndexOfAbsent(objectTable, v);
      ref := if v in objectRefMap then objectRefMap[v] else 0;
    }

    method CreateArrayData(items: seq<Value>) returns (r: Result<Bytes, Error>)
      requires Valid() && objectRefSize in {1, 2, 4, 8}
      ensures r == EncodeArray(objectTable, objectRefSize, items)
    {
      var header :- Header(T_ARRAY, |items|);
      var size := objectRefSize;
      var refBuffer := new Byte[|items| * size](_ => 0);
      ghost var refs := Refs(objectTable, items);
      for i := 0 to |items|
        invariant i * size <= refBuffer.Length
        invariant EncodeNums(refs[..i], size) == Ok(refBuffer[..i * size])
      {
        var itemRef := RefOf(items[i]);
        var ok := PutNumber(refBuffer, refs, i, itemRef, size);
        if !ok {
          return Err(RangeError);
        }
      }
      assert refs[..|items|] == refs && refBuffer[..|items| * size] == refBuffer[..];
      r := Ok(header + refBuffer[..]);
    }

    /** Writes the references of entry `i` into the key buffer and the value buffer. */
    method PutEntry(keyBuffer: array<Byte>, valueBuffer: array<Byte>, entries: seq<Entry>, i: nat,
                    ghost keys: seq<nat>, ghost values: seq<nat>, size: nat) returns (ok: bool)
      requires Valid() && size in {1, 2, 4, 8} && i < |entries| && keyBuffer != valueBuffer
      requires keys == Refs(objectTable, EntryKeys(entries)) && values == Refs(objectTable, EntryValues(entries))
      requires keyBuffer.Length == valueBuffer.Length == |entries| * size && i * size <= keyBuffer.Length
      requires EncodeNums(keys[..i], size) == Ok(keyBuffer[..i * size])
      requires EncodeNums(values[..i], size) == Ok(valueBuffer[..i * size])
      modifies keyBuffer, valueBuffer
      ensures (i + 1) * size <= keyBuffer.Length
      ensures ok ==> EncodeNums(keys[..i + 1], size) == Ok(keyBuffer[..(i + 1) * size])
      ensures ok ==> EncodeNums(values[..i + 1], size) == Ok(valueBuffer[..(i + 1) * size])
      ensures !ok ==> EncodeNums(keys, size).Err? || EncodeNums(values, size).Err?
    {
      hide EncodeNums, IndexOf;
      var keyRef := RefOf(Str(entries[i].key));
      var valueRef := RefOf(entries[i].value);
      ok := PutNumber(keyBuffer, keys, i, keyRef, size);
      if ok {
        ok := PutNumber(valueBuffer, values, i, valueRef, size);
      }
    }

    method CreateDictionaryData(entries: seq<Entry>) returns (r: Result<Bytes, Error>)
      requires Valid() && objectRefSize in {1, 2, 4, 8}
      ensures r == EncodeDict(objectTable, objectRefSize, entries)
    {
      hide Pow256, IndexOf, Header, IntHeader, BE, Refs, EntryKeys, EntryValues;
      var header :- Header(T_DICT, |entries|);
      var size := objectRefSize;
      var keyBuffer := new Byte[|entries| * size](_ => 0);
      var valueBuffer := new Byte[|entries| * size](_ => 0);
      ghost var keys := Refs(objectTable, EntryKeys(entries));
      ghost var values := Refs(objectTable, EntryValues(entries));
      for i := 0 to |entries|
        invariant i * size <= keyBuffer.Length == valueBuffer.Length
        invariant EncodeNums(keys[..i], size) == Ok(keyBuffer[..i * size])
        invariant EncodeNums(values[..i], size) == Ok(valueBuffer[..i * size])
      {
        var ok := PutEntry(keyBuffer, valueBuffer, entries, i, keys, values, size);
        if !ok {
          return Err(RangeError);
        }
      }
      assert keys[..|entries|] == keys && keyBuffer[..|entries| * size] == keyBuffer[..];
      assert values[..|entries|] == values && valueBuffer[..|entries| * size] == valueBuffer[..];
      r := Ok(header + keyBuffer[..] + valueBuffer[..]);
    }

    method CreateObjectData(value: Value) returns (r: Result<Bytes, Error>)
      requires Valid() && InHeap(heap, value) && objectRefSize in {1, 2, 4, 8}
      ensures r == EncodeObject(heap, objectTable, objectRefSize, value)
    {
      if value.Obj? && heap[value.id].Arr? {
        r := CreateArrayData(heap[value.id].items);
      } else if value.Obj? && heap[value.id].Dict? {
        r := CreateDictionaryData(heap[value.id].entries);
      } else {
        r := EncodeObject(heap, objectTable, objectRefSize, value);
      }
    }

    method CreateOffsetTable(offsets: seq<nat>) returns (r: Result<Bytes, Error>)
      requires offsetSize in {1, 2, 4, 8}
      ensures r == EncodeNums(offsets, offsetSize)
    {
      var size := offsetSize;
      var buffer := new Byte[|offsets| * size](_ => 0);
      for i := 0 to |offsets|
        invariant i * size <= buffer.Length
        invariant EncodeNums(offsets[..i], size) == Ok(buffer[..i * size])
      {
        var ok := PutNumber(buffer, offsets, i, offsets[i], size);
        if !ok {
          return Err(RangeError);
        }
      }
      assert offsets[..|offsets|] == offsets && buffer[..|offsets| * size] == buffer[..];
      r := Ok(buffer[..]);
    }

    /** The loop of `create`: the data of every object in table order, and where each starts. */
    method CreateAllData() returns (r: Result<seq<Bytes>, Error>, objectOffsets: seq<nat>)
      requires Valid() && objectRefSize in {1, 2, 4, 8}
      ensures r == EncodeAll(heap, objectTable, objectRefSize, objectTable)
      ensures r.Ok? ==> objectOffsets == Offsets(r.value)
    {
      objectOffsets := [];
      var objectData: seq<Bytes> := [];
      for i := 0 to |objectTable|
        invariant EncodeAll(heap, objectTable, objectRefSize, objectTable[..i]) == Ok(objectData)
        invariant objectOffsets == Offsets(objectData)
      {
        EncodeAllStep(heap, objectTable, objectRefSize, objectTable, i);
        objectOffsets := objectOffsets + [|MAGIC| + |Flatten(objectData)|];
        var data := CreateObjectData(objectTable[i]);
        if data.Err? {
          EncodeAllPrefixErr(heap, objectTable, objectRefSize, objectTable, i + 1);
          return Err(data.error), objectOffsets;
        }
        OffsetsStep(objectData, data.value);
        objectData := objectData + [data.value];
      }
      assert objectTable[..|objectTable|] == objectTable;
      r := Ok(objectData);
    }

    method Create() returns (r: Result<Bytes, Error>)
      requires Valid() && objectTable == []
      modifies this
      ensures Valid() && objectTable == Collect(heap, [], rootObject)
      ensures r == CreateBytes(heap, rootObject)
    {
      CollectObjects();
      var data, objectOffsets := CreateAllData();
      if data.Err? {
        return Err(data.error);
      }
      var body := Flatten(data.value);
      offsetSize := MinByteSize(|body|);
      var offsetTable :- CreateOffsetTable(objectOffsets);
      var trailer := Trailer(offsetSize, objectRefSize, |objectTable|, |MAGIC| + |body|);
      r := Ok(MAGIC + body + offsetTable + trailer);
    }
  }

  lemma CollectPair(h: Heap, table: seq<Value>, k: Value, v: Value, rest: seq<Value>)
    requires ClosedHeap(h) && InHeap(h, k) && InHeap(h, v) && forall x :: x in rest ==> InHeap(h, x)
    ensures CollectAll(h, table, [k, v] + rest) == CollectAll(h, Collect(h, Collect(h, table, k), v), rest)
  {
    var t := Collect(h, table, k);
    assert ([k, v] + rest)[1..] == [v] + rest && ([v] + rest)[1..] == rest;
    assert CollectAll(h, table, [k, v] + rest) == CollectAll(h, t, [v] + rest);
  }

  lemma EncodeAllStep(h: Heap, table: seq<Value>, refSize: nat, vs: seq<Value>, i: nat)
    requires forall v :: v in vs ==> InHeap(h, v)
    requires i < |vs| && EncodeAll(h, table, refSize, vs[..i]).Ok?
    ensures EncodeAll(h, table, refSize, vs[..i + 1]) ==
            match EncodeObject(h, table, refSize, vs[i])
            case Ok(data) => Ok(EncodeAll(h, table, refSize, vs[..i]).value + [data])
            case Err(e) => Err(e)
  {
    assert vs[..i + 1][..i] == vs[..i];
  }

  lemma OffsetsStep(parts: seq<Bytes>, part: Bytes)
    ensures Offsets(parts + [part]) == Offsets(parts) + [|MAGIC| + |Flatten(parts)|]
  {
    assert (parts + [part])[..|parts|] == parts;
  }

  lemma {:induction false} IndexOfAbsent(table: seq<Value>, v: Value)
    ensures v !in table ==> IndexOf(table, v) == 0
  {
    if table != [] {
      IndexOfAbsent(table[..|table| - 1], v);
    }
  }

  lemma {:induction false} EncodeAllPrefixErr(h: Heap, table: seq<Value>, refSize: nat, vs: seq<Value>, i: nat)
    requires forall v :: v in vs ==> InHeap(h, v)
    requires i <= |vs| && EncodeAll(h, table, refSize, vs[..i]).Err?
    ensures EncodeAll(h, table, refSize, vs) == Err(EncodeAll(h, table, refSize, vs[..i]).error)
    decreases |vs|
  {
    if i < |vs| {
      assert vs[..|vs| - 1][..i] == vs[..i];
      EncodeAllPrefixErr(h, table, refSize, vs[..|vs| - 1], i);
    } else {
      assert vs[..i] == vs;
    }
  }
}
