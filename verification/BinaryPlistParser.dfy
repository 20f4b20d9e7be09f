/**
 * The binary plist parser.  Arrays, dictionaries and buffers it creates are JavaScript objects;
 * each is named by the index of the table entry it was created for, and `objects` holds their
 * contents.  An array or dictionary starts as an empty shell behind a temporary table entry and is
 * filled by the second phase.
 */
module BinaryPlistReading {
  import opened Bytes
  import opened Wrappers
  import opened PlistGraph
  import opened BinaryPlistFormat

  /** A parsed JavaScript value; `PRef` is a reference to an object the parser created. */
  datatype PV =
    | PUndefined
    | PNull
    | PBool(b: bool)
    | PNum(n: int)
    | PBig(n: int)
    | PReal(bits: Bytes)
    | PDate(bits: Bytes)
    | PStr(s: Text)
    | PRef(id: nat)

  datatype PEntry = PEntry(key: Text, value: PV)
  datatype Content = PArr(items: seq<PV>) | PDict(entries: seq<PEntry>) | PData(bytes: Bytes)
  datatype Item = Plain(v: PV) | Temp(isArray: bool, objLength: int, startOffset: int)
  datatype State = State(table: seq<Item>, objects: map<nat, Content>)

  /** One parsed object before it gets its table entry. */
  datatype Shape = Leaf(v: PV) | Blob(bytes: Bytes) | Shell(isArray: bool, objLength: int, startOffset: int)

  datatype TrailerInfo = TrailerInfo(offsetSize: nat, refSize: nat, numObjects: nat, topObject: nat, tableOffset: nat)

  const TYPE_KEY: Text := [0x74, 0x79, 0x70, 0x65]
  const VALUE_KEY: Text := [0x76, 0x61, 0x6c, 0x75, 0x65]

  // ----- reading integers -----

  /** The value of a JavaScript 32-bit bitwise operation. */
  function ToInt32(n: int): (r: int)
    ensures -TWO31 <= r < TWO31
  {
    (n + TWO31) % TWO32 - TWO31
  }

  lemma ToInt32Small(n: int)
    requires -TWO31 <= n < TWO31
    ensures ToInt32(n) == n
  {
  }

  /** `(r << 8) | b` on 32 bits agrees with the exact value. */
  lemma ToInt32Shift(x: int, b: Byte)
    ensures ToInt32(ToInt32(x) * 256) + b == ToInt32(256 * x + b)
  {
    var q := (x + TWO31) / TWO32;
    assert ToInt32(x) == x - q * TWO32;
    var q' := (256 * x + b + TWO31) / TWO32;
    var r' := (256 * x + b + TWO31) % TWO32;
    assert 256 * x + b + TWO31 == q' * TWO32 + r';
    assert r' % 256 == b by {
      assert r' == 256 * (x + 0x80_0000 - q' * 0x100_0000) + b;
    }
    assert ToInt32(x) * 256 + TWO31 == (q' - 256 * q) * TWO32 + (r' - b);
    ModUnique(ToInt32(x) * 256 + TWO31, TWO32, q' - 256 * q, r' - b);
  }

  function ReadUInt8(buf: Bytes, offset: int): Result<Byte, Error> {
    if 0 <= offset < |buf| then Ok(buf[offset]) else Err(RangeError)
  }

  /** The multi-byte integer the parser reads: 32-bit arithmetic up to six bytes, exact beyond. */
  function ReadInt(buf: Bytes, start: int, count: nat): Result<int, Error> {
    if count == 0 then Ok(0)
    else if start < 0 || start + count > |buf| then Err(RangeError)
    else
      var n := FromBE(buf[start..start + count]);
      if count <= 6 then Ok(ToInt32(n))
      else if n > MAX_SAFE_INTEGER then Err(FormatError) else Ok(n)
  }

  function ReadSigned(buf: Bytes, start: int, count: nat): Result<int, Error> {
    if start < 0 || start + count > |buf| then Err(RangeError)
    else Ok(Signed(FromBE(buf[start..start + count]), count))
  }

  function NumberOrBig(n: int): PV {
    if ExactDouble(n) then PNum(n) else PBig(n)
  }

  function ReadBits(buf: Bytes, start: int, count: nat): Result<Bytes, Error> {
    if start < 0 || start + count > |buf| then Err(RangeError) else Ok(buf[start..start + count])
  }

  function Pow2(k: nat): nat {
    if k == 0 then 1 else 2 * Pow2(k - 1)
  }

  // ----- first phase -----

  function ParseInteger(buf: Bytes, start: int, count: nat): Result<PV, Error> {
    if count == 1 || count == 2 || count == 4 then
      var n :- ReadSigned(buf, start, count);
      Ok(PNum(n))
    else if count == 8 || count == 16 then
      var n :- ReadSigned(buf, start, count);
      Ok(NumberOrBig(n))
    else Err(TypeError)
  }

  function ParseReal(buf: Bytes, start: int, count: nat): Result<PV, Error> {
    if count == 4 || count == 8 then
      var bits :- ReadBits(buf, start, count);
      Ok(PReal(bits))
    else Err(TypeError)
  }

  /** `toString('ascii')` drops the top bit. */
  function AsciiText(s: Bytes): (t: Text)
    ensures |t| == |s|
  {
    seq(|s|, i requires 0 <= i < |s| => s[i] % 128)
  }

  function ByteOrZero(s: Bytes, i: nat): Byte {
    if i < |s| then s[i] else 0
  }

  function Utf16Text(s: Bytes, n: nat): (t: Text)
    ensures |t| == n
  {
    seq(n, i requires 0 <= i < n => 256 * ByteOrZero(s, 2 * i) + ByteOrZero(s, 2 * i + 1))
  }

  function ParseNull(info: int): Result<PV, Error> {
    if info == 0 || info == 15 then Ok(PNull)
    else if info == 8 then Ok(PBool(false))
    else if info == 9 then Ok(PBool(true))
    else Err(TypeError)
  }

  function AsLeaf(r: Result<PV, Error>): Result<Shape, Error> {
    var v :- r;
    Ok(Leaf(v))
  }

  function ParseObjectByType(buf: Bytes, kind: int, info: nat, start: int, length: int): Result<Shape, Error> {
    if kind == 0 then AsLeaf(ParseNull(info))
    else if kind == T_INT then AsLeaf(ParseInteger(buf, start, Pow2(info)))
    else if kind == T_REAL then AsLeaf(ParseReal(buf, start, Pow2(info)))
    else if kind == T_DATE then
      var bits :- ReadBits(buf, start, 8);
      Ok(Leaf(PDate(bits)))
    else if kind == T_DATA then Ok(Blob(JsSlice(buf, start, start + length)))
    else if kind == T_ASCII then Ok(Leaf(PStr(AsciiText(JsSlice(buf, start, start + length)))))
    else if kind == T_UNICODE then
      if length < 0 then Err(RangeError)
      else Ok(Leaf(PStr(Utf16Text(JsSlice(buf, start, start + 2 * length), length))))
    else if kind == T_UID then
      var n :- ReadInt(buf, start, info + 1);
      Ok(Leaf(PNum(n)))
    else if kind == T_ARRAY then Ok(Shell(true, length, start))
    else if kind == T_DICT then Ok(Shell(false, length, start))
    else Err(TypeError)
  }

  datatype ObjectHeader = ObjectHeader(kind: int, info: nat, start: int, length: int)

  /** Marker byte of an object, with the length that follows it when the low nibble is 15. */
  function HeaderAt(buf: Bytes, offset: int): Result<ObjectHeader, Error> {
    var marker :- ReadUInt8(buf, offset);
    var info := marker % 16;
    if info != 15 then Ok(ObjectHeader(marker - info, info, offset + 1, info))
    else
      var intMarker :- ReadUInt8(buf, offset + 1);
      if intMarker - intMarker % 16 != T_INT then Err(TypeError)
      else
        var count := Pow2(intMarker % 16);
        var length :- ReadInt(buf, offset + 2, count);
        Ok(ObjectHeader(marker - info, info, offset + 2 + count, length))
  }

  function ParseObjectAt(buf: Bytes, offset: int): Result<Shape, Error> {
    var header :- HeaderAt(buf, offset);
    ParseObjectByType(buf, header.kind, header.info, header.start, header.length)
  }

  function AddShape(st: State, shape: Shape): State {
    var i := |st.table|;
    match shape
    case Leaf(v) => State(st.table + [Plain(v)], st.objects)
    case Blob(bytes) => State(st.table + [Plain(PRef(i))], st.objects[i := PData(bytes)])
    case Shell(isArray, length, start) =>
      State(st.table + [Temp(isArray, length, start)], st.objects[i := if isArray then PArr([]) else PDict([])])
  }

  function ReadOffset(buf: Bytes, t: TrailerInfo, i: nat): Result<int, Error> {
    ReadInt(buf, t.tableOffset + i * t.offsetSize, t.offsetSize)
  }

  function ParseOne(buf: Bytes, t: TrailerInfo, i: nat): Result<Shape, Error> {
    var offset :- ReadOffset(buf, t, i);
    ParseObjectAt(buf, offset)
  }

  function ParseFirst(buf: Bytes, t: TrailerInfo, k: nat): (r: Result<State, Error>)
    ensures r.Ok? ==> |r.value.table| == k
  {
    if k == 0 then Ok(State([], map[]))
    else
      var st :- ParseFirst(buf, t, k - 1);
      var shape :- ParseOne(buf, t, k - 1);
      Ok(AddShape(st, shape))
  }

  // ----- second phase -----

  function Lookup(es: seq<PEntry>, key: Text): Option<PV> {
    if es == [] then None
    else if es[0].key == key then Some(es[0].value)
    else Lookup(es[1..], key)
  }

  /** `dict[key] = value`. */
  function Put(es: seq<PEntry>, key: Text, value: PV): seq<PEntry> {
    if es == [] then [PEntry(key, value)]
    else if es[0].key == key then [PEntry(key, value)] + es[1..]
    else [es[0]] + Put(es[1..], key, value)
  }

  /** A finished dictionary that has a key `type` passes the test for temporary objects. */
  predicate LooksTemporary(st: State, v: PV) {
    v.PRef? && v.id in st.objects && st.objects[v.id].PDict? && Lookup(st.objects[v.id].entries, TYPE_KEY).Some?
  }

  predicate IsTempObject(st: State, item: Item) {
    item.Temp? || LooksTemporary(st, item.v)
  }

  function PropertyOf(st: State, v: PV, key: Text): PV {
    if v.PRef? && v.id in st.objects && st.objects[v.id].PDict? then
      match Lookup(st.objects[v.id].entries, key)
      case Some(x) => x
      case None => PUndefined
    else PUndefined
  }

  /** What a reference to table entry `ref` puts into the container that holds it. */
  function SlotValue(st: State, ref: int): PV {
    if !(0 <= ref < |st.table|) then PUndefined
    else match st.table[ref]
      case Temp(_, _, _) => PRef(ref)
      case Plain(v) => if LooksTemporary(st, v) then PropertyOf(st, v, VALUE_KEY) else v
  }

  function ReadObjectRef(buf: Bytes, t: TrailerInfo, start: int, j: nat): Result<int, Error> {
    ReadInt(buf, start + j * t.refSize, t.refSize)
  }

  function ArraySlots(buf: Bytes, t: TrailerInfo, st: State, start: int, n: nat): (r: Result<seq<PV>, Error>)
    ensures r.Ok? ==> |r.value| == n
  {
    if n == 0 then Ok([])
    else
      var init :- ArraySlots(buf, t, st, start, n - 1);
      var ref :- ReadObjectRef(buf, t, start, n - 1);
      Ok(init + [SlotValue(st, ref)])
  }

  function KeyAt(st: State, ref: int): Result<Text, Error> {
    if 0 <= ref < |st.table| && st.table[ref].Plain? && st.table[ref].v.PStr?
    then Ok(st.table[ref].v.s) else Err(TypeError)
  }

  /** Key string and value reference of entry `j`. */
  function EntryRefs(buf: Bytes, t: TrailerInfo, st: State, start: int, count: nat, j: nat)
    : Result<(Text, int), Error>
  {
    var keyRef :- ReadObjectRef(buf, t, start, j);
    var valueRef :- ReadObjectRef(buf, t, start, count + j);
    var key :- KeyAt(st, keyRef);
    Ok((key, valueRef))
  }

  function DictSlots(buf: Bytes, t: TrailerInfo, st: State, start: int, count: nat, n: nat)
    : Result<seq<PEntry>, Error>
  {
    if n == 0 then Ok([])
    else
      var init :- DictSlots(buf, t, st, start, count, n - 1);
      var (key, valueRef) :- EntryRefs(buf, t, st, start, count, n - 1);
      Ok(Put(init, key, SlotValue(st, valueRef)))
  }

  function Iterations(length: int): nat {
    if length < 0 then 0 else length
  }

  function ResolveOne(buf: Bytes, t: TrailerInfo, st: State, i: nat): (r: Result<State, Error>)
    requires i < |st.table|
    ensures r.Ok? ==> |r.value.table| == |st.table|
  {
    match st.table[i]
    case Plain(_) => Ok(st)
    case Temp(isArray, length, start) =>
      if isArray then
        var items :- ArraySlots(buf, t, st, start, Iterations(length));
        Ok(State(st.table[i := Plain(PRef(i))], st.objects[i := PArr(items)]))
      else
        var entries :- DictSlots(buf, t, st, start, Iterations(length), Iterations(length));
        Ok(State(st.table[i := Plain(PRef(i))], st.objects[i := PDict(entries)]))
  }

  function ResolveFirst(buf: Bytes, t: TrailerInfo, st: State, k: nat): (r: Result<State, Error>)
    requires k <= |st.table|
    ensures r.Ok? ==> |r.value.table| == |st.table|
  {
    if k == 0 then Ok(st)
    else
      var prev :- ResolveFirst(buf, t, st, k - 1);
      ResolveOne(buf, t, prev, k - 1)
  }

  // ----- result -----

  /** A parsed value together with the objects it refers to. */
  datatype Parsed = Parsed(objects: map<nat, Content>, value: PV)

  predicate HasNoKeys(st: State, v: PV) {
    v.PDate? ||
    (v.PRef? && v.id in st.objects &&
      match st.objects[v.id]
      case PArr(items) => items == []
      case PDict(entries) => entries == []
      case PData(bytes) => bytes == [])
  }

  /** The condition under which the salvage conversion replaces an empty top object. */
  predicate Salvages(st: State, t: TrailerInfo) {
    && t.topObject == 0 && |st.table| > 1
    && st.table[0].Plain? && !IsTempObject(st, st.table[0]) && HasNoKeys(st, st.table[0].v)
  }

  /** The first `n` key-value pairs of the table, read from index 1 on. */
  function SalvagedEntries(st: State, n: nat): seq<PEntry> {
    if n == 0 then []
    else
      var init := SalvagedEntries(st, n - 1);
      if 2 * n < |st.table| && KeyAt(st, 2 * n - 1).Ok? && !IsTempObject(st, st.table[2 * n])
      then Put(init, KeyAt(st, 2 * n - 1).value, st.table[2 * n].v) else init
  }

  function TopObject(st: State, t: TrailerInfo): Parsed {
    if Salvages(st, t) then
      var id := |st.table|;
      Parsed(st.objects[id := PDict(SalvagedEntries(st, |st.table| / 2))], PRef(id))
    else Parsed(st.objects, SlotValue(st, t.topObject))
  }

  function ReadTrailer(buf: Bytes): Result<TrailerInfo, Error> {
    if |buf| < TRAILER_SIZE then Err(FormatError)
    else
      var t := buf[|buf| - TRAILER_SIZE..];
      Ok(TrailerInfo(t[6], t[7], FromBE(t[8..16]), FromBE(t[16..24]), FromBE(t[24..32])))
  }

  /** What `parseBinaryPlist(buf)` returns, or the error it throws. */
  function ParseBytes(buf: Bytes): Result<Parsed, Error> {
    if |buf| < 8 || buf[..8] != MAGIC then Err(FormatError)
    else
      var t :- ReadTrailer(buf);
      var st :- ParseFirst(buf, t, t.numObjects);
      var resolved :- ResolveFirst(buf, t, st, t.numObjects);
      Ok(TopObject(resolved, t))
  }
}

module BinaryPlistParser {
  import opened Bytes
  import opened Wrappers
  import opened PlistGraph
  import opened BinaryPlistFormat
  import opened BinaryPlistReading

  class BinaryPlistParser {
    const buffer: Bytes
    var offsetSize: nat
    var objectRefSize: nat
    var numObjects: nat
    var topObject: nat
    var offsetTableOffset: nat
    var objectTable: seq<Item>
    var objects: map<nat, Content>

    ghost function Info(): TrailerInfo
      reads this
    {
      TrailerInfo(offsetSize, objectRefSize, numObjects, topObject, offsetTableOffset)
    }

    ghost function Current(): State
      reads this
    {
      State(objectTable, objects)
    }

    constructor (buf: Bytes)
      ensures buffer == buf && objectTable == [] && objects == map[]
    {
      buffer := buf;
      objectTable, objects := [], map[];
      offsetSize, objectRefSize, numObjects, topObject, offsetTableOffset := 0, 0, 0, 0, 0;
    }

    method ParseTrailer() returns (r: Result<(), Error>)
      modifies this`offsetSize, this`objectRefSize, this`numObjects, this`topObject, this`offsetTableOffset
      ensures r.Ok? ==> ReadTrailer(buffer) == Ok(Info())
      ensures r.Err? ==> ReadTrailer(buffer) == Err(r.error)
    {
      if |buffer| < TRAILER_SIZE {
        return Err(FormatError);
      }
      var trailer := buffer[|buffer| - TRAILER_SIZE..];
      offsetSize, objectRefSize := trailer[6], trailer[7];
      numObjects := FromBE(trailer[8..16]);
      topObject := FromBE(trailer[16..24]);
      offsetTableOffset := FromBE(trailer[24..32]);
      r := Ok(());
    }

    method ReadMultiByteInteger(startOffset: int, byteCount: nat) returns (r: Result<int, Error>)
      ensures r == ReadInt(buffer, startOffset, byteCount)
    {
      var result := 0;
      var i := 0;
      while i < byteCount
        invariant 0 <= i <= byteCount
        invariant i > 0 ==> 0 <= startOffset && startOffset + i <= |buffer|
        invariant i == 0 ==> result == 0
        invariant i > 0 ==> result == (if byteCount > 6 then FromBE(buffer[startOffset..startOffset + i])
                                       else ToInt32(FromBE(buffer[startOffset..startOffset + i])))
      {
        var byte :- ReadUInt8(buffer, startOffset + i);
        ghost var read := buffer[startOffset..startOffset + i + 1];
        assert read[..i] == buffer[startOffset..startOffset + i];
        if byteCount > 6 {
          result := 256 * result + byte;
        } else {
          ToInt32Shift(FromBE(buffer[startOffset..startOffset + i]), byte);
          result := ToInt32(result * 256) + byte;
        }
        i := i + 1;
      }
      if byteCount > 6 && result > MAX_SAFE_INTEGER {
        return Err(FormatError);
      }
      r := Ok(result);
    }

    method ParseObjects() returns (r: Result<(), Error>)
      requires objectTable == [] && objects == map[]
      modifies this`objectTable, this`objects
      ensures r.Ok? ==> ParseFirst(buffer, Info(), numObjects) == Ok(Current())
      ensures r.Err? ==> ParseFirst(buffer, Info(), numObjects) == Err(r.error)
    {
      hide ParseOne;
      for i := 0 to numObjects
        invariant ParseFirst(buffer, Info(), i) == Ok(Current())
      {
        var shape := ParseOneObject(i);
        if shape.Err? {
          ParseFirstErr(buffer, Info(), i + 1, numObjects);
          return Err(shape.error);
        }
        match shape.value {
          case Leaf(v) =>
            objectTable := objectTable + [Plain(v)];
          case Blob(bytes) =>
            objectTable := objectTable + [Plain(PRef(i))];
            objects := objects[i := PData(bytes)];
          case Shell(isArray, length, start) =>
            objectTable := objectTable + [Temp(isArray, length, start)];
            objects := objects[i := if isArray then PArr([]) else PDict([])];
        }
      }
      r := Ok(());
    }

    method ReadObjectHeader(objOffset: int) returns (r: Result<ObjectHeader, Error>)
      ensures r == HeaderAt(buffer, objOffset)
    {
      var marker :- ReadUInt8(buffer, objOffset);
      var objInfo := marker % 16;
      var objLength, startOffset := objInfo, objOffset + 1;
      if objInfo == 15 {
        var intMarker :- ReadUInt8(buffer, startOffset);
        if intMarker - intMarker % 16 != T_INT {
          return Err(TypeError);
        }
        startOffset := startOffset + 1;
        var intByteCount := Pow2(intMarker % 16);
        objLength :- ReadMultiByteInteger(startOffset, intByteCount);
        startOffset := startOffset + intByteCount;
      }
      r := Ok(ObjectHeader(marker - objInfo, objInfo, startOffset, objLength));
    }

    method ParseOneObject(i: nat) returns (r: Result<Shape, Error>)
      ensures r == ParseOne(buffer, Info(), i)
    {
      var objOffset :- ReadMultiByteInteger(offsetTableOffset + i * offsetSize, offsetSize);
      var header :- ReadObjectHeader(objOffset);
      r := ParseObjectByType(buffer, header.kind, header.info, header.start, header.length);
    }

    /** Every resolved object, and every buffer, sits at its own table index. */
    ghost predicate OwnIndices()
      reads this
    {
      SelfIndexed(Current())
    }

    /** The reference loop of an array: pushes one slot after another onto its shell. */
    method FillArray(objLength: int, startOffset: int, index: nat) returns (r: Result<(), Error>)
      requires index < |objectTable| && objectTable[index].Temp? && OwnIndices()
      requires index in objects && objects[index] == PArr([])
      modifies this`objects
      ensures var slots := ArraySlots(buffer, Info(), old(Current()), startOffset, Iterations(objLength));
              if r.Ok? then slots.Ok? && objects == old(objects)[index := PArr(slots.value)] else slots == Err(r.error)
    {
      hide SlotValue, ReadInt;
      ghost var st := Current();
      ghost var n := Iterations(objLength);
      var items: seq<PV> := [];
      var j := 0;
      while j < objLength
        invariant 0 <= j <= n
        invariant objects == st.objects[index := PArr(items)]
        invariant ArraySlots(buffer, Info(), st, startOffset, j) == Ok(items)
      {
        var refIdx := ReadMultiByteInteger(startOffset + j * objectRefSize, objectRefSize);
        if refIdx.Err? {
          ArraySlotsErr(buffer, Info(), st, startOffset, j + 1, n);
          return Err(refIdx.error);
        }
        SlotFrame(st, index, PArr(items), refIdx.value);
        items := items + [SlotValue(State(objectTable, objects), refIdx.value)];
        objects := objects[index := PArr(items)];
        j := j + 1;
      }
      r := Ok(());
    }

    method ResolveArrayReferences(objLength: int, startOffset: int, index: nat) returns (r: Result<(), Error>)
      requires index < |objectTable| && objectTable[index] == Temp(true, objLength, startOffset)
      requires OwnIndices() && index in objects && objects[index] == PArr([])
      modifies this`objectTable, this`objects
      ensures r.Ok? ==> ResolveOne(buffer, Info(), old(Current()), index) == Ok(Current()) && OwnIndices()
      ensures r.Err? ==> ResolveOne(buffer, Info(), old(Current()), index) == Err(r.error)
    {
      var _ :- FillArray(objLength, startOffset, index);
      objectTable := objectTable[index := Plain(PRef(index))];
      r := Ok(());
    }

    /** Key string and value reference of entry `j`. */
    method ReadEntry(startOffset: int, keyCount: nat, j: nat) returns (r: Result<(Text, int), Error>)
      ensures r == EntryRefs(buffer, Info(), Current(), startOffset, keyCount, j)
    {
      var keyRef :- ReadMultiByteInteger(startOffset + j * objectRefSize, objectRefSize);
      var valueRef :- ReadMultiByteInteger(startOffset + (keyCount + j) * objectRefSize, objectRefSize);
      var key :- KeyAt(State(objectTable, objects), keyRef);
      r := Ok((key, valueRef));
    }

    /** The reference loop of a dictionary: assigns one entry after another to its shell. */
    method FillDict(objLength: int, startOffset: int, index: nat) returns (r: Result<(), Error>)
      requires index < |objectTable| && objectTable[index].Temp? && OwnIndices()
      requires index in objects && objects[index] == PDict([])
      modifies this`objects
      ensures var n := Iterations(objLength);
              var slots := DictSlots(buffer, Info(), old(Current()), startOffset, n, n);
              if r.Ok? then slots.Ok? && objects == old(objects)[index := PDict(slots.value)] else slots == Err(r.error)
    {
      hide EntryRefs, SlotValue, Put, ReadInt;
      ghost var st := Current();
      ghost var n := Iterations(objLength);
      var entries: seq<PEntry> := [];
      var j := 0;
      while j < objLength
        invariant 0 <= j <= n
        invariant objects == st.objects[index := PDict(entries)]
        invariant DictSlots(buffer, Info(), st, startOffset, n, j) == Ok(entries)
      {
        var step := ReadEntry(startOffset, objLength, j);
        KeyFrame(st, objects, buffer, Info(), startOffset, n, j);
        if step.Err? {
          DictSlotsErr(buffer, Info(), st, startOffset, n, j + 1, n);
          return Err(step.error);
        }
        SlotFrame(st, index, PDict(entries), step.value.1);
        entries := Put(entries, step.value.0, SlotValue(State(objectTable, objects), step.value.1));
        objects := objects[index := PDict(entries)];
        j := j + 1;
      }
      r := Ok(());
    }

    method ResolveDictReferences(objLength: int, startOffset: int, index: nat) returns (r: Result<(), Error>)
      requires index < |objectTable| && objectTable[index] == Temp(false, objLength, startOffset)
      requires OwnIndices() && index in objects && objects[index] == PDict([])
      modifies this`objectTable, this`objects
      ensures r.Ok? ==> ResolveOne(buffer, Info(), old(Current()), index) == Ok(Current()) && OwnIndices()
      ensures r.Err? ==> ResolveOne(buffer, Info(), old(Current()), index) == Err(r.error)
    {
      var _ :- FillDict(objLength, startOffset, index);
      objectTable := objectTable[index := Plain(PRef(index))];
      r := Ok(());
    }

    method ResolveReferences() returns (r: Result<(), Error>)
      requires |objectTable| == numObjects && OwnIndices() && FreshShells(Current(), 0)
      modifies this`objectTable, this`objects
      ensures r.Ok? ==> ResolveFirst(buffer, Info(), old(Current()), numObjects) == Ok(Current())
      ensures r.Ok? ==> |objectTable| == numObjects
      ensures r.Err? ==> ResolveFirst(buffer, Info(), old(Current()), numObjects) == Err(r.error)
    {
      ghost var st := Current();
      for i := 0 to numObjects
        invariant |objectTable| == numObjects && OwnIndices() && FreshShells(Current(), i)
        invariant ResolveFirst(buffer, Info(), st, i) == Ok(Current())
      {
        ghost var prev := Current();
        match objectTable[i] {
          case Plain(_) =>
          case Temp(isArray, length, start) =>
            var done;
            if isArray {
              done := ResolveArrayReferences(length, start, i);
            } else {
              done := ResolveDictReferences(length, start, i);
            }
            if done.Err? {
              ResolveFirstErr(buffer, Info(), st, i + 1, numObjects);
              return Err(done.error);
            }
        }
        FreshShellsStep(buffer, Info(), prev, i);
      }
      r := Ok(());
    }

    method Parse() returns (r: Result<Parsed, Error>)
      requires objectTable == [] && objects == map[]
      modifies this
      ensures r == ParseBytes(buffer)
    {
      if |buffer| < 8 || buffer[..8] != MAGIC {
        return Err(FormatError);
      }
      var _ :- ParseTrailer();
      var _ :- ParseObjects();
      ParseFirstShells(buffer, Info(), numObjects);
      var _ :- ResolveReferences();
      r := Ok(TopObject(State(objectTable, objects),
                        TrailerInfo(offsetSize, objectRefSize, numObjects, topObject, offsetTableOffset)));
    }
  }

  // ----- facts the loops need -----

  predicate SelfIndexed(st: State) {
    forall k :: 0 <= k < |st.table| && st.table[k].Plain? && st.table[k].v.PRef? ==> st.table[k].v.id == k
  }

  /** From entry `i` on, every temporary entry still has an empty shell. */
  predicate FreshShells(st: State, i: nat) {
    forall k :: i <= k < |st.table| && st.table[k].Temp? ==>
      k in st.objects && st.objects[k] == (if st.table[k].isArray then PArr([]) else PDict([]))
  }

  /** Filling the shell of a container that is still temporary changes no slot. */
  lemma SlotFrame(st: State, index: nat, content: Content, ref: int)
    requires SelfIndexed(st) && index < |st.table| && st.table[index].Temp?
    ensures SlotValue(State(st.table, st.objects[index := content]), ref) == SlotValue(st, ref)
  {
  }

  lemma KeyFrame(st: State, objects: map<nat, Content>, buf: Bytes, t: TrailerInfo, start: int, count: nat, j: nat)
    ensures EntryRefs(buf, t, State(st.table, objects), start, count, j) == EntryRefs(buf, t, st, start, count, j)
  {
  }

  lemma {:induction false} ParseFirstErr(buf: Bytes, t: TrailerInfo, k: nat, n: nat)
    requires k <= n && ParseFirst(buf, t, k).Err?
    ensures ParseFirst(buf, t, n) == ParseFirst(buf, t, k)
  {
    hide ParseOne, AddShape;
    if k < n {
      ParseFirstErr(buf, t, k, n - 1);
    }
  }

  lemma {:induction false} ArraySlotsErr(buf: Bytes, t: TrailerInfo, st: State, start: int, k: nat, n: nat)
    requires k <= n && ArraySlots(buf, t, st, start, k).Err?
    ensures ArraySlots(buf, t, st, start, n) == ArraySlots(buf, t, st, start, k)
  {
    if k < n {
      ArraySlotsErr(buf, t, st, start, k, n - 1);
    }
  }

  lemma {:induction false} DictSlotsErr(buf: Bytes, t: TrailerInfo, st: State, start: int, count: nat, k: nat, n: nat)
    requires k <= n && DictSlots(buf, t, st, start, count, k).Err?
    ensures DictSlots(buf, t, st, start, count, n) == DictSlots(buf, t, st, start, count, k)
  {
    hide EntryRefs, SlotValue, Put;
    if k < n {
      DictSlotsErr(buf, t, st, start, count, k, n - 1);
    }
  }

  lemma {:induction false} ResolveFirstErr(buf: Bytes, t: TrailerInfo, st: State, k: nat, n: nat)
    requires k <= n <= |st.table| && ResolveFirst(buf, t, st, k).Err?
    ensures ResolveFirst(buf, t, st, n) == ResolveFirst(buf, t, st, k)
  {
    if k < n {
      ResolveFirstErr(buf, t, st, k, n - 1);
    }
  }

  lemma FreshShellsStep(buf: Bytes, t: TrailerInfo, st: State, i: nat)
    requires i < |st.table| && FreshShells(st, i) && ResolveOne(buf, t, st, i).Ok?
    ensures FreshShells(ResolveOne(buf, t, st, i).value, i + 1)
  {
  }

  /** The first phase makes no reference except a buffer's own. */
  lemma {:induction false} ParseFirstShells(buf: Bytes, t: TrailerInfo, k: nat)
    requires ParseFirst(buf, t, k).Ok?
    ensures SelfIndexed(ParseFirst(buf, t, k).value) && FreshShells(ParseFirst(buf, t, k).value, 0)
  {
    if k > 0 {
      ParseFirstShells(buf, t, k - 1);
      var shape := ParseOne(buf, t, k - 1).value;
      ParseOneLeaf(buf, t, k - 1);
      AddShapeShells(ParseFirst(buf, t, k - 1).value, shape);
    }
  }

  lemma AddShapeShells(st: State, shape: Shape)
    requires SelfIndexed(st) && FreshShells(st, 0) && (shape.Leaf? ==> !shape.v.PRef?)
    ensures SelfIndexed(AddShape(st, shape)) && FreshShells(AddShape(st, shape), 0)
  {
  }

  lemma ParseOneLeaf(buf: Bytes, t: TrailerInfo, i: nat)
    ensures var r := ParseOne(buf, t, i); r.Ok? && r.value.Leaf? ==> !r.value.v.PRef?
  {
  }
}
