/**
 * `parseBinaryPlist(createBinaryPlist(root))`: the parsed graph, slot by slot, for every value graph,
 * shared or cyclic, and exactly when it is a faithful copy.
 */
module BinaryPlistRoundTrip {
  import opened Bytes
  import opened Wrappers
  import opened PlistGraph
  import opened BinaryPlistFormat
  import opened BinaryPlistReading
  import opened BinaryPlistParser
  import opened BinaryPlistLayout
  import opened BinaryPlistObjects

  // ----- the graph the parser builds, in terms of the graph the creator was given -----

  predicate IsArr(h: Heap, v: Value) {
    v.Obj? && v.id in h && h[v.id].Arr?
  }

  predicate IsDict(h: Heap, v: Value) {
    v.Obj? && v.id in h && h[v.id].Dict?
  }

  predicate IsData(h: Heap, v: Value) {
    v.Obj? && v.id in h && h[v.id].Data?
  }

  /** A value on its own: a primitive, or a reference to the object made for its table entry. */
  function Image(h: Heap, table: seq<Value>, v: Value): PV {
    match v
    case Null => PNull
    case Bool(b) => PBool(b)
    case Num(n) => PNum(NumberReadBack(n))
    case Big(n) => NumberOrBig(n)
    case Real(bits) => PReal(bits)
    case Str(s) => PStr(s)
    case Obj(id) =>
      if id in h && h[id].Uid? && h[id].uid >= 0 then PNum(UidReadBack(h[id].uid))
      else PRef(IndexOf(table, v))
  }

  function EntryFor(es: seq<Entry>, key: Text): Option<Value> {
    if es == [] then None
    else if es[0].key == key then Some(es[0].value)
    else EntryFor(es[1..], key)
  }

  predicate HasTypeKey(h: Heap, v: Value) {
    IsDict(h, v) && EntryFor(h[v.id].entries, TYPE_KEY).Some?
  }

  /**
   * What the container of table entry `i` holds for its child `v`.  A dictionary with a key `type`
   * that is already finished is taken for a temporary object, and its property `value` is used.
   */
  function Seen(h: Heap, table: seq<Value>, i: nat, v: Value): PV
    decreases i
  {
    var j := IndexOf(table, v);
    if j < i && HasTypeKey(h, v) then
      match EntryFor(h[v.id].entries, VALUE_KEY)
      case None => PUndefined
      case Some(x) => Seen(h, table, j, x)
    else Image(h, table, v)
  }

  function SeenItems(h: Heap, table: seq<Value>, i: nat, items: seq<Value>): (r: seq<PV>)
    ensures |r| == |items|
  {
    seq(|items|, k requires 0 <= k < |items| => Seen(h, table, i, items[k]))
  }

  function SeenEntries(h: Heap, table: seq<Value>, i: nat, es: seq<Entry>): (r: seq<PEntry>)
    ensures |r| == |es|
  {
    seq(|es|, k requires 0 <= k < |es| => PEntry(es[k].key, Seen(h, table, i, es[k].value)))
  }

  predicate MakesObject(h: Heap, v: Value) {
    IsArr(h, v) || IsDict(h, v) || IsData(h, v)
  }

  /** Contents of the object made for table entry `i`. */
  function Contents(h: Heap, table: seq<Value>, i: nat): Content
    requires i < |table| && MakesObject(h, table[i])
  {
    match h[table[i].id]
    case Arr(items) => PArr(SeenItems(h, table, i, items))
    case Dict(es) => PDict(SeenEntries(h, table, i, es))
    case Data(bytes) => PData(bytes)
  }

  lemma {:induction false} LookupSeen(h: Heap, table: seq<Value>, i: nat, es: seq<Entry>, key: Text)
    ensures Lookup(SeenEntries(h, table, i, es), key) ==
            match EntryFor(es, key)
            case None => None
            case Some(x) => Some(Seen(h, table, i, x))
  {
    if es != [] {
      LookupSeen(h, table, i, es[1..], key);
      assert SeenEntries(h, table, i, es)[1..] == SeenEntries(h, table, i, es[1..]);
    }
  }

  // ----- the bytes `create` produced -----

  /** Everything the proof needs to know about a created file. */
  ghost predicate Created(h: Heap, table: seq<Value>, parts: seq<Bytes>, t: TrailerInfo, buf: Bytes) {
    && ClosedHeap(h) && (forall i :: 0 <= i < |table| ==> JsValue(h, table[i]))
    && (forall id :: id in h && h[id].Dict? ==> DistinctKeys(h[id].entries))
    && Distinct(table) && ClosedFrom(h, table, 0)
    && |table| == |parts| == t.numObjects && 0 < |table| < TWO31
    && t.refSize > 0 && |buf| < TWO31
    && (forall i :: 0 <= i < |table| ==> ReadOffset(buf, t, i) == Ok(Offsets(parts)[i]))
    && (forall i :: 0 <= i < |table| ==> At(buf, Offsets(parts)[i], parts[i]))
    && (forall i :: 0 <= i < |table| ==> EncodeObject(h, table, t.refSize, table[i]) == Ok(parts[i]))
  }

  /** Where the references of the container encoded at `offset` start. */
  function Start(h: Heap, v: Value, offset: nat): nat {
    if IsArr(h, v) && |h[v.id].items| < TWO32 then RefsStart(T_ARRAY, |h[v.id].items|, offset)
    else if IsDict(h, v) && |h[v.id].entries| < TWO32 then RefsStart(T_DICT, |h[v.id].entries|, offset)
    else 0
  }

  /** The shape the first phase makes of the object encoded at `offset`. */
  function ShapeAt(h: Heap, table: seq<Value>, v: Value, offset: nat): Shape {
    if IsArr(h, v) then Shell(true, |h[v.id].items|, Start(h, v, offset))
    else if IsDict(h, v) then Shell(false, |h[v.id].entries|, Start(h, v, offset))
    else if IsData(h, v) then Blob(h[v.id].bytes)
    else Leaf(Image(h, table, v))
  }

  function ShapeOf(h: Heap, table: seq<Value>, parts: seq<Bytes>, i: nat): Shape
    requires |table| == |parts| && i < |table|
  {
    ShapeAt(h, table, table[i], Offsets(parts)[i])
  }

  lemma ReadPrimitive(h: Heap, table: seq<Value>, refSize: nat, buf: Bytes, offset: nat, v: Value, d: Bytes)
    requires !v.Obj? && JsValue(h, v) && EncodeObject(h, table, refSize, v) == Ok(d) && |buf| < TWO31
    requires At(buf, offset, d)
    ensures ParseObjectAt(buf, offset) == Ok(Leaf(Image(h, table, v)))
  {
    match v
    case Null => ShortHeader(buf, offset, 0, []);
    case Bool(b) => ShortHeader(buf, offset, if b then 9 else 8, []);
    case Num(n) => ReadNumber(buf, offset, n);
    case Big(n) => ReadBig(buf, offset, n);
    case Real(bits) =>
      Pow2Values();
      ShortHeader(buf, offset, T_REAL + 3, bits);
    case Str(s) =>
      StringLength(s);
      ReadString(buf, offset, s);
    case Obj(_) =>
  }

  /** One encoded object, whatever its type, reads back as its shape. */
  lemma ReadObject(h: Heap, table: seq<Value>, refSize: nat, buf: Bytes, offset: nat, v: Value, d: Bytes)
    requires JsValue(h, v) && EncodeObject(h, table, refSize, v) == Ok(d) && |buf| < TWO31 && refSize > 0
    requires At(buf, offset, d)
    ensures ParseObjectAt(buf, offset) == Ok(ShapeAt(h, table, v, offset))
  {
    if !v.Obj? {
      ReadPrimitive(h, table, refSize, buf, offset, v, d);
    } else {
      match h[v.id]
      case Arr(items) =>
        ContainerLength(h, table, refSize, v);
        ReadArray(buf, offset, table, refSize, items);
      case Dict(es) =>
        ContainerLength(h, table, refSize, v);
        ReadDict(buf, offset, table, refSize, es);
      case Data(bytes) => ReadData(buf, offset, bytes);
      case Uid(n) => ReadUid(buf, offset, n);
    }
  }

  lemma ParseEntry(h: Heap, table: seq<Value>, parts: seq<Bytes>, t: TrailerInfo, buf: Bytes, i: nat)
    requires Created(h, table, parts, t, buf) && i < |table|
    ensures ParseOne(buf, t, i) == Ok(ShapeOf(h, table, parts, i))
  {
    ReadObject(h, table, t.refSize, buf, Offsets(parts)[i], table[i], parts[i]);
  }

  lemma StringLength(s: Text)
    requires EncodeString(s).Ok?
    ensures |s| <= |EncodeString(s).value|
  {
  }

  lemma ContainerLength(h: Heap, table: seq<Value>, refSize: nat, v: Value)
    requires InHeap(h, v) && refSize > 0 && EncodeObject(h, table, refSize, v).Ok?
    ensures IsArr(h, v) ==> |h[v.id].items| <= |EncodeObject(h, table, refSize, v).value|
    ensures IsDict(h, v) ==> |h[v.id].entries| <= |EncodeObject(h, table, refSize, v).value|
  {
    if IsArr(h, v) {
      MulMono(1, refSize, |h[v.id].items|);
    } else if IsDict(h, v) {
      MulMono(1, refSize, |h[v.id].entries|);
    }
  }

  // ----- the state of the parser between its steps -----

  function ItemOf(h: Heap, table: seq<Value>, parts: seq<Bytes>, i: nat, k: nat): Item
    requires |table| == |parts| && i < |table|
  {
    match ShapeOf(h, table, parts, i)
    case Leaf(v) => Plain(v)
    case Blob(_) => Plain(PRef(i))
    case Shell(isArray, length, start) => if i < k then Plain(PRef(i)) else Temp(isArray, length, start)
  }

  function ObjectOf(h: Heap, table: seq<Value>, i: nat, k: nat): Content
    requires i < |table| && MakesObject(h, table[i])
  {
    if i < k || IsData(h, table[i]) then Contents(h, table, i)
    else if IsArr(h, table[i]) then PArr([]) else PDict([])
  }

  /** The first `n` entries are parsed and the first `k` of them are resolved. */
  ghost predicate StateIs(h: Heap, table: seq<Value>, parts: seq<Bytes>, st: State, n: nat, k: nat)
    requires |table| == |parts|
  {
    && |st.table| == n <= |table|
    && (forall i :: 0 <= i < n ==> st.table[i] == ItemOf(h, table, parts, i, k))
    && (forall i :: i in st.objects <==> 0 <= i < n && MakesObject(h, table[i]))
    && (forall i :: i in st.objects ==> st.objects[i] == ObjectOf(h, table, i, k))
  }

  lemma {:induction false} FirstPhase(h: Heap, table: seq<Value>, parts: seq<Bytes>, t: TrailerInfo, buf: Bytes, n: nat)
    requires |table| == |parts| && Created(h, table, parts, t, buf) && n <= |table|
    ensures ParseFirst(buf, t, n).Ok?
    ensures StateIs(h, table, parts, ParseFirst(buf, t, n).value, n, 0)
  {
    hide Created, StateIs, ParseOne, AddShape, ShapeOf;
    if n == 0 {
      NothingParsed(h, table, parts);
    } else {
      FirstPhase(h, table, parts, t, buf, n - 1);
      ParseEntry(h, table, parts, t, buf, n - 1);
      FirstPhaseStep(h, table, parts, ParseFirst(buf, t, n - 1).value, n - 1);
    }
  }

  lemma NothingParsed(h: Heap, table: seq<Value>, parts: seq<Bytes>)
    requires |table| == |parts|
    ensures StateIs(h, table, parts, State([], map[]), 0, 0)
  {
  }

  lemma FirstPhaseStep(h: Heap, table: seq<Value>, parts: seq<Bytes>, st: State, n: nat)
    requires |table| == |parts| && n < |table| && StateIs(h, table, parts, st, n, 0)
    ensures StateIs(h, table, parts, AddShape(st, ShapeOf(h, table, parts, n)), n + 1, 0)
  {
  }

  /** While entry `k` is being resolved, a reference to `v` yields what `Seen` says. */
  lemma SlotIsSeen(h: Heap, table: seq<Value>, parts: seq<Bytes>, st: State, k: nat, v: Value)
    requires |table| == |parts| && StateIs(h, table, parts, st, |table|, k) && v in table
    ensures SlotValue(st, IndexOf(table, v)) == Seen(h, table, k, v)
  {
    var j := IndexOf(table, v);
    if IsDict(h, v) && j < k {
      LookupSeen(h, table, j, h[v.id].entries, TYPE_KEY);
      LookupSeen(h, table, j, h[v.id].entries, VALUE_KEY);
      assert st.objects[j] == Contents(h, table, j);
    }
  }

  /** Every listed value is in the table, and a reference to it yields what `Seen` says. */
  ghost predicate SlotsAreSeen(h: Heap, table: seq<Value>, st: State, k: nat, vs: seq<Value>) {
    forall i :: 0 <= i < |vs| ==>
      vs[i] in table && SlotValue(st, IndexOf(table, vs[i])) == Seen(h, table, k, vs[i])
  }

  lemma {:induction false} ArrayIsSeen(h: Heap, table: seq<Value>, t: TrailerInfo, buf: Bytes, st: State,
                                       k: nat, start: nat, items: seq<Value>, n: nat)
    requires |table| < TWO31 && t.refSize > 0 && n <= |items| && SlotsAreSeen(h, table, st, k, items)
    requires EncodeNums(Refs(table, items), t.refSize).Ok?
    requires At(buf, start, EncodeNums(Refs(table, items), t.refSize).value)
    ensures ArraySlots(buf, t, st, start, n) == Ok(SeenItems(h, table, k, items[..n]))
  {
    hide EncodeNums, At, SlotValue, Seen, ReadObjectRef;
    if n > 0 {
      ArrayIsSeen(h, table, t, buf, st, k, start, items, n - 1);
      ReadRefAt(buf, t, start, Refs(table, items), n - 1);
      assert SeenItems(h, table, k, items[..n]) ==
             SeenItems(h, table, k, items[..n - 1]) + [Seen(h, table, k, items[n - 1])];
    }
  }

  lemma {:induction false} PutNew(es: seq<PEntry>, key: Text, value: PV)
    requires forall i :: 0 <= i < |es| ==> es[i].key != key
    ensures Put(es, key, value) == es + [PEntry(key, value)]
  {
    if es != [] {
      PutNew(es[1..], key, value);
      assert es == [es[0]] + es[1..];
    }
  }

  /** Entry by entry, the references of a dictionary lead to its key string and its value. */
  ghost predicate EntriesAreRead(table: seq<Value>, t: TrailerInfo, buf: Bytes, st: State, start: nat, es: seq<Entry>) {
    forall j :: 0 <= j < |es| ==>
      EntryRefs(buf, t, st, start, |es|, j) == Ok((es[j].key, IndexOf(table, es[j].value)))
  }

  lemma BothRefsAt(buf: Bytes, t: TrailerInfo, start: nat, n: nat, j: nat, keys: seq<nat>, values: seq<nat>)
    requires t.refSize > 0 && j < n == |keys| == |values| && keys[j] < TWO31 && values[j] < TWO31
    requires EncodeNums(keys, t.refSize).Ok? && At(buf, start, EncodeNums(keys, t.refSize).value)
    requires EncodeNums(values, t.refSize).Ok? && At(buf, start + n * t.refSize, EncodeNums(values, t.refSize).value)
    ensures ReadObjectRef(buf, t, start, j) == Ok(keys[j])
    ensures ReadObjectRef(buf, t, start, n + j) == Ok(values[j])
  {
    ReadRefAt(buf, t, start, keys, j);
    ReadRefAt(buf, t, start + n * t.refSize, values, j);
    RefsAfter(buf, t, start, n, j);
  }

  lemma BothIndicesAt(table: seq<Value>, buf: Bytes, t: TrailerInfo, start: nat, es: seq<Entry>, j: nat)
    requires |table| < TWO31 && t.refSize > 0 && j < |es|
    requires Str(es[j].key) in table && es[j].value in table
    requires var keys := EncodeNums(Refs(table, EntryKeys(es)), t.refSize); keys.Ok? && At(buf, start, keys.value)
    requires var values := EncodeNums(Refs(table, EntryValues(es)), t.refSize);
             values.Ok? && At(buf, start + |es| * t.refSize, values.value)
    ensures ReadObjectRef(buf, t, start, j) == Ok(IndexOf(table, Str(es[j].key)))
    ensures ReadObjectRef(buf, t, start, |es| + j) == Ok(IndexOf(table, es[j].value))
  {
    hide EncodeNums;
    BothRefsAt(buf, t, start, |es|, j, Refs(table, EntryKeys(es)), Refs(table, EntryValues(es)));
  }

  lemma RefsAfter(buf: Bytes, t: TrailerInfo, start: nat, n: nat, j: nat)
    ensures ReadObjectRef(buf, t, start + n * t.refSize, j) == ReadObjectRef(buf, t, start, n + j)
  {
    assert (n + j) * t.refSize == n * t.refSize + j * t.refSize;
  }

  lemma {:induction false} DictIsSeen(h: Heap, table: seq<Value>, t: TrailerInfo, buf: Bytes, st: State,
                                      k: nat, start: nat, es: seq<Entry>, n: nat)
    requires n <= |es| && DistinctKeys(es)
    requires EntriesAreRead(table, t, buf, st, start, es) && SlotsAreSeen(h, table, st, k, EntryValues(es))
    ensures DictSlots(buf, t, st, start, |es|, n) == Ok(SeenEntries(h, table, k, es[..n]))
  {
    hide SlotValue, Seen, EntryRefs, Put;
    if n > 0 {
      DictIsSeen(h, table, t, buf, st, k, start, es, n - 1);
      assert EntryValues(es)[n - 1] == es[n - 1].value;
      PutSeen(h, table, k, es, n - 1);
    }
  }

  lemma PutSeen(h: Heap, table: seq<Value>, k: nat, es: seq<Entry>, n: nat)
    requires n < |es| && DistinctKeys(es)
    ensures Put(SeenEntries(h, table, k, es[..n]), es[n].key, Seen(h, table, k, es[n].value)) ==
            SeenEntries(h, table, k, es[..n + 1])
  {
    PutNew(SeenEntries(h, table, k, es[..n]), es[n].key, Seen(h, table, k, es[n].value));
  }

  lemma ResolveArray(h: Heap, table: seq<Value>, parts: seq<Bytes>, t: TrailerInfo, buf: Bytes, st: State, k: nat)
    requires Created(h, table, parts, t, buf) && k < |table| && StateIs(h, table, parts, st, |table|, k)
    requires IsArr(h, table[k])
    ensures var items := h[table[k].id].items;
            ArraySlots(buf, t, st, Start(h, table[k], Offsets(parts)[k]), |items|) == Ok(SeenItems(h, table, k, items))
  {
    hide EncodeNums, EncodeArray, EncodeObject, SlotValue, Seen, StateIs, ArraySlots, At, Start, RefsStart;
    var items := h[table[k].id].items;
    ArrayEncoding(h, table, parts, t, buf, k);
    ReadArray(buf, Offsets(parts)[k], table, t.refSize, items);
    forall i | 0 <= i < |items|
      ensures items[i] in table && SlotValue(st, IndexOf(table, items[i])) == Seen(h, table, k, items[i])
    {
      assert items[i] in Children(h, table[k]);
      SlotIsSeen(h, table, parts, st, k, items[i]);
    }
    ArrayIsSeen(h, table, t, buf, st, k, Start(h, table[k], Offsets(parts)[k]), items, |items|);
    assert items[..|items|] == items;
  }

  lemma ArrayEncoding(h: Heap, table: seq<Value>, parts: seq<Bytes>, t: TrailerInfo, buf: Bytes, k: nat)
    requires Created(h, table, parts, t, buf) && k < |table| && IsArr(h, table[k])
    ensures var items := h[table[k].id].items;
            && EncodeArray(table, t.refSize, items) == Ok(parts[k])
            && At(buf, Offsets(parts)[k], parts[k]) && |items| < TWO31
            && Start(h, table[k], Offsets(parts)[k]) == RefsStart(T_ARRAY, |items|, Offsets(parts)[k])
  {
    assert EncodeObject(h, table, t.refSize, table[k]) == Ok(parts[k]);
    ContainerLength(h, table, t.refSize, table[k]);
  }

  lemma KeyIsRead(h: Heap, table: seq<Value>, parts: seq<Bytes>, st: State, k: nat, key: Text)
    requires |table| == |parts| && StateIs(h, table, parts, st, |table|, k) && Str(key) in table
    ensures KeyAt(st, IndexOf(table, Str(key))) == Ok(key)
  {
    var i := IndexOf(table, Str(key));
    assert st.table[i] == Plain(PStr(key));
  }

  lemma ResolveDict(h: Heap, table: seq<Value>, parts: seq<Bytes>, t: TrailerInfo, buf: Bytes, st: State, k: nat)
    requires Created(h, table, parts, t, buf) && k < |table| && StateIs(h, table, parts, st, |table|, k)
    requires IsDict(h, table[k])
    ensures var es := h[table[k].id].entries;
            DictSlots(buf, t, st, Start(h, table[k], Offsets(parts)[k]), |es|, |es|) == Ok(SeenEntries(h, table, k, es))
  {
    hide SlotValue, Seen, StateIs, DictSlots, EntryRefs, Start, EncodeObject, EncodeDict, At;
    var es, start := h[table[k].id].entries, Start(h, table[k], Offsets(parts)[k]);
    DictEntries(h, table, parts, t, buf, st, k);
    forall i | 0 <= i < |es|
      ensures es[i].value in table && SlotValue(st, IndexOf(table, es[i].value)) == Seen(h, table, k, es[i].value)
    {
      DictKidsMembers(es, i);
      assert es[i].value in Children(h, table[k]);
      SlotIsSeen(h, table, parts, st, k, es[i].value);
    }
    DictIsSeen(h, table, t, buf, st, k, start, es, |es|);
    assert es[..|es|] == es;
  }

  /** Keys and values of the dictionary at entry `k` are in the table. */
  lemma EntriesInTable(h: Heap, table: seq<Value>, k: nat)
    requires k < |table| && IsDict(h, table[k]) && ClosedFrom(h, table, 0)
    ensures forall j :: 0 <= j < |h[table[k].id].entries| ==>
              Str(h[table[k].id].entries[j].key) in table && h[table[k].id].entries[j].value in table
  {
    var es := h[table[k].id].entries;
    forall j | 0 <= j < |es|
      ensures Str(es[j].key) in table && es[j].value in table
    {
      DictKidsMembers(es, j);
      assert Str(es[j].key) in Children(h, table[k]) && es[j].value in Children(h, table[k]);
    }
  }

  lemma DictRefsAt(table: seq<Value>, t: TrailerInfo, buf: Bytes, offset: nat, es: seq<Entry>, d: Bytes, j: nat)
    requires |table| < TWO31 && t.refSize > 0 && |es| < TWO31 && j < |es|
    requires EncodeDict(table, t.refSize, es) == Ok(d) && At(buf, offset, d)
    requires Str(es[j].key) in table && es[j].value in table
    ensures var start := RefsStart(T_DICT, |es|, offset);
            && ReadObjectRef(buf, t, start, j) == Ok(IndexOf(table, Str(es[j].key)))
            && ReadObjectRef(buf, t, start, |es| + j) == Ok(IndexOf(table, es[j].value))
  {
    hide EncodeNums, Refs, EncodeDict, Header, IntHeader, At;
    ReadDict(buf, offset, table, t.refSize, es);
    BothIndicesAt(table, buf, t, RefsStart(T_DICT, |es|, offset), es, j);
  }

  lemma DictEncoding(h: Heap, table: seq<Value>, parts: seq<Bytes>, t: TrailerInfo, buf: Bytes, k: nat)
    requires Created(h, table, parts, t, buf) && k < |table| && IsDict(h, table[k])
    ensures var es := h[table[k].id].entries;
            && EncodeDict(table, t.refSize, es) == Ok(parts[k])
            && At(buf, Offsets(parts)[k], parts[k]) && |es| < TWO31
            && Start(h, table[k], Offsets(parts)[k]) == RefsStart(T_DICT, |es|, Offsets(parts)[k])
  {
    assert EncodeObject(h, table, t.refSize, table[k]) == Ok(parts[k]);
    ContainerLength(h, table, t.refSize, table[k]);
  }

  lemma DictEntry(table: seq<Value>, t: TrailerInfo, buf: Bytes, st: State, offset: nat, es: seq<Entry>, d: Bytes,
                  j: nat)
    requires |table| < TWO31 && t.refSize > 0 && |es| < TWO31 && j < |es|
    requires EncodeDict(table, t.refSize, es) == Ok(d) && At(buf, offset, d)
    requires Str(es[j].key) in table && es[j].value in table
    requires KeyAt(st, IndexOf(table, Str(es[j].key))) == Ok(es[j].key)
    ensures EntryRefs(buf, t, st, RefsStart(T_DICT, |es|, offset), |es|, j)
         == Ok((es[j].key, IndexOf(table, es[j].value)))
  {
    hide EncodeNums, EncodeDict, RefsStart, At;
    DictRefsAt(table, t, buf, offset, es, d, j);
  }

  lemma DictEntries(h: Heap, table: seq<Value>, parts: seq<Bytes>, t: TrailerInfo, buf: Bytes, st: State, k: nat)
    requires Created(h, table, parts, t, buf) && k < |table| && StateIs(h, table, parts, st, |table|, k)
    requires IsDict(h, table[k])
    ensures EntriesAreRead(table, t, buf, st, Start(h, table[k], Offsets(parts)[k]), h[table[k].id].entries)
  {
    hide EncodeNums, EncodeDict, EncodeObject, RefsStart, Start, At, StateIs, EntryRefs, KeyAt;
    var es, offset := h[table[k].id].entries, Offsets(parts)[k];
    EntriesInTable(h, table, k);
    DictEncoding(h, table, parts, t, buf, k);
    forall j | 0 <= j < |es|
      ensures EntryRefs(buf, t, st, Start(h, table[k], offset), |es|, j) == Ok((es[j].key, IndexOf(table, es[j].value)))
    {
      KeyIsRead(h, table, parts, st, k, es[j].key);
      DictEntry(table, t, buf, st, offset, es, parts[k], j);
    }
  }

  lemma MarkResolved(h: Heap, table: seq<Value>, parts: seq<Bytes>, st: State, k: nat)
    requires |table| == |parts| && k < |table| && StateIs(h, table, parts, st, |table|, k)
    ensures IsArr(h, table[k]) || IsDict(h, table[k]) ==>
            StateIs(h, table, parts,
                    State(st.table[k := Plain(PRef(k))], st.objects[k := Contents(h, table, k)]), |table|, k + 1)
    ensures !IsArr(h, table[k]) && !IsDict(h, table[k]) ==> StateIs(h, table, parts, st, |table|, k + 1)
  {
  }

  /** The second phase resolves entry `k` to its `Contents`. */
  lemma ResolveStep(h: Heap, table: seq<Value>, parts: seq<Bytes>, t: TrailerInfo, buf: Bytes, st: State, k: nat)
    requires Created(h, table, parts, t, buf) && k < |table| && StateIs(h, table, parts, st, |table|, k)
    ensures ResolveOne(buf, t, st, k).Ok?
    ensures StateIs(h, table, parts, ResolveOne(buf, t, st, k).value, |table|, k + 1)
  {
    assert st.table[k] == ItemOf(h, table, parts, k, k);
    MarkResolved(h, table, parts, st, k);
    if IsArr(h, table[k]) {
      ResolveArray(h, table, parts, t, buf, st, k);
    } else if IsDict(h, table[k]) {
      ResolveDict(h, table, parts, t, buf, st, k);
    }
  }

  lemma {:induction false} SecondPhase(h: Heap, table: seq<Value>, parts: seq<Bytes>, t: TrailerInfo, buf: Bytes,
                                       st: State, k: nat)
    requires Created(h, table, parts, t, buf) && k <= |table| && StateIs(h, table, parts, st, |table|, 0)
    ensures ResolveFirst(buf, t, st, k).Ok?
    ensures StateIs(h, table, parts, ResolveFirst(buf, t, st, k).value, |table|, k)
  {
    hide ResolveOne, ItemOf, ObjectOf;
    if k > 0 {
      SecondPhase(h, table, parts, t, buf, st, k - 1);
      ResolveStep(h, table, parts, t, buf, ResolveFirst(buf, t, st, k - 1).value, k - 1);
    }
  }
}
