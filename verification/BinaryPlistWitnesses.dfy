/** Concrete inputs on which the binary plist code does not do what its callers expect. */
module BinaryPlistWitnesses {
  import opened Bytes
  import opened Wrappers
  import opened PlistGraph
  import opened BinaryPlistFormat
  import opened BinaryPlistReading
  import opened BinaryPlistLayout
  import opened BinaryPlistObjects
  import opened BinaryPlistRoundTrip
  import opened BinaryPlistTheorems

  lemma OneByte(n: Byte)
    ensures BE(n, 1) == [n]
  {
    assert BE(n / 256, 0) == [];
  }

  lemma EncodeSingle(h: Heap, table: seq<Value>, refSize: nat, v: Value)
    requires InHeap(h, v) && EncodeObject(h, table, refSize, v).Ok?
    ensures EncodeAll(h, table, refSize, [v]) == Ok([EncodeObject(h, table, refSize, v).value])
  {
    hide EncodeObject;
    var none: seq<Value> := [v][..0];
    assert none == [] && EncodeAll(h, table, refSize, none) == Ok([]);
    assert [] + [EncodeObject(h, table, refSize, v).value] == [EncodeObject(h, table, refSize, v).value];
  }

  lemma SinglePart(p: Bytes)
    ensures Flatten([p]) == p && Offsets([p]) == [8]
  {
    var parts := [p];
    assert parts[..0] == [] && Flatten(parts[..0]) == [] && [] + p == p;
  }

  lemma SingleAssembled(v: Value, d: Bytes)
    requires |d| < 200
    ensures var r := Assemble([v], 1, [d]); r.Ok? && |r.value| < 250
  {
    hide EncodeNums, Trailer, Flatten, Offsets, Pow256;
    SinglePart(d);
    Pow256Values();
    EncodeNumsOk([8], 1);
  }

  /** A document of one object comes back as `Seen` says. */
  lemma SingleReads(h: Heap, v: Value, d: Bytes)
    requires JsHeap(h) && JsValue(h, v) && (v.Obj? ==> Kids(h[v.id]) == [])
    requires EncodeObject(h, [v], 1, v) == Ok(d) && |d| < 200
    ensures CreateBytes(h, v).Ok? && ParseBytes(CreateBytes(h, v).value).Ok?
    ensures ParseBytes(CreateBytes(h, v).value).value.value == Seen(h, [v], 1, v)
  {
    hide ParseBytes, ParsedGraph, EncodeAll, EncodeObject, Assemble, Seen;
    SingleTable(h, v);
    EncodeSingle(h, [v], 1, v);
    SingleAssembled(v, d);
    RoundTrip(h, v, CreateBytes(h, v).value);
  }

  lemma SingleTable(h: Heap, v: Value)
    requires ClosedHeap(h) && InHeap(h, v) && (v.Obj? ==> Kids(h[v.id]) == [])
    ensures Collect(h, [], v) == [v]
  {
    assert [] + [v] == [v];
  }

  /** 200 is written as one unsigned byte and read back as -56. */
  lemma TwoHundredReadsNegative()
    ensures CreateBytes(map[], Num(200)).Ok?
    ensures ParseBytes(CreateBytes(map[], Num(200)).value).Ok?
    ensures ParseBytes(CreateBytes(map[], Num(200)).value).value.value == PNum(-56)
  {
    hide ParseBytes, CreateBytes;
    SingleReads(map[], Num(200), [T_INT, 200]);
  }

  /** The UID 65536 is written in four bytes, and the first three of them are read: 256. */
  lemma WideUidReadsShort()
    ensures var h: Heap := map[0 := Uid(65536)];
            && CreateBytes(h, Obj(0)).Ok? && ParseBytes(CreateBytes(h, Obj(0)).value).Ok?
            && ParseBytes(CreateBytes(h, Obj(0)).value).value.value == PNum(256)
  {
    hide ParseBytes, CreateBytes, BE, Pow256;
    var h: Heap := map[0 := Uid(65536)];
    Pow256Values();
    SingleReads(h, Obj(0), [T_UID + 2] + BE(65536, 4));
  }

  lemma TypeTable(h: Heap)
    requires h == map[0 := Dict([Entry(TYPE_KEY, Null)])] && ClosedHeap(h)
    ensures Collect(h, [], Obj(0)) == [Obj(0), Str(TYPE_KEY), Null]
  {
    hide Unvisited;
    var kids := [Str(TYPE_KEY), Null];
    var table := [Obj(0), Str(TYPE_KEY), Null];
    var es := [Entry(TYPE_KEY, Null)];
    assert es[1..] == [] && DictKids(es) == kids + [] == kids;
    assert [] + [Obj(0)] == [Obj(0)];
    assert kids[1..] == [Null] && kids[1..][1..] == [];
    assert CollectAll(h, table, []) == table;
    assert [Obj(0), Str(TYPE_KEY)] + [Null] == table && [Obj(0)] + [Str(TYPE_KEY)] == [Obj(0), Str(TYPE_KEY)];
    assert CollectAll(h, [Obj(0), Str(TYPE_KEY)], [Null]) == table;
    assert CollectAll(h, [Obj(0)], kids) == table;
  }

  lemma TypeParts(h: Heap, parts: seq<Bytes>)
    requires h == map[0 := Dict([Entry(TYPE_KEY, Null)])]
    requires EncodeAll(h, [Obj(0), Str(TYPE_KEY), Null], 1, [Obj(0), Str(TYPE_KEY), Null]) == Ok(parts)
    ensures |Flatten(parts)| == 9
  {
    var table := [Obj(0), Str(TYPE_KEY), Null];
    EncodeAllAt(h, table, 1, table, 0);
    EncodeAllAt(h, table, 1, table, 1);
    EncodeAllAt(h, table, 1, table, 2);
    assert |parts[0]| == 3 && |parts[1]| == 5 && |parts[2]| == 1;
    assert parts[..2][..1] == parts[..1] && parts[..1][..0] == [];
    assert |Flatten(parts[..1])| == 3 && |Flatten(parts[..2])| == 8;
  }

  lemma TypeSeen(h: Heap)
    requires h == map[0 := Dict([Entry(TYPE_KEY, Null)])]
    ensures Seen(h, [Obj(0), Str(TYPE_KEY), Null], 3, Obj(0)) == PUndefined
  {
    var table := [Obj(0), Str(TYPE_KEY), Null];
    IndexOfAt(table, 0);
    var es := [Entry(TYPE_KEY, Null)];
    assert es[1..] == [] && TYPE_KEY != VALUE_KEY;
    assert EntryFor(es, TYPE_KEY) == Some(Null) && EntryFor(es, VALUE_KEY) == None;
  }

  lemma TypeIsJs(h: Heap)
    requires h == map[0 := Dict([Entry(TYPE_KEY, Null)])]
    ensures JsHeap(h) && JsValue(h, Obj(0))
  {
    var es := [Entry(TYPE_KEY, Null)];
    assert es[1..] == [] && DictKids(es) == [Str(TYPE_KEY), Null] + [];
  }

  lemma TypeDictionaryIsWritten(h: Heap)
    requires h == map[0 := Dict([Entry(TYPE_KEY, Null)])] && JsHeap(h) && JsValue(h, Obj(0))
    ensures CreateBytes(h, Obj(0)).Ok? && |CreateBytes(h, Obj(0)).value| < TWO31
  {
    hide Collect, CreateBytes, EncodeAll, Flatten, Offsets, Pow256, EncodeNums, Trailer;
    TypeTable(h);
    CreateParts(h, Obj(0));
    var parts := Body(h, Obj(0));
    TypeParts(h, parts);
    Pow256Values();
    CollectIsReachability(h, Obj(0));
    CreateReturnsInWidthClass(h, Obj(0));
    FileLength([Obj(0), Str(TYPE_KEY), Null], parts);
  }

  lemma FileLength(table: seq<Value>, parts: seq<Bytes>)
    requires Assemble(table, 1, parts).Ok? && |Flatten(parts)| == 9 && |parts| == 3
    ensures |Assemble(table, 1, parts).value| == 52
  {
    hide EncodeNums, Flatten, Offsets, Trailer;
  }

  /** The dictionary `{type: null}`, as a document, is written and then parsed to undefined. */
  lemma TypeDictionaryReadsUndefined(h: Heap)
    requires h == map[0 := Dict([Entry(TYPE_KEY, Null)])]
    ensures JsHeap(h) && JsValue(h, Obj(0)) && CreateBytes(h, Obj(0)).Ok?
    ensures ParseBytes(CreateBytes(h, Obj(0)).value).Ok?
    ensures ParseBytes(CreateBytes(h, Obj(0)).value).value.value == PUndefined
  {
    hide ParseBytes, CreateBytes, ParsedGraph, Collect, Seen;
    TypeIsJs(h);
    TypeTable(h);
    TypeDictionaryIsWritten(h);
    RoundTrip(h, Obj(0), CreateBytes(h, Obj(0)).value);
    TypeSeen(h);
  }

  lemma BoundaryTable(s: Text)
    ensures Collect(map[0 := Arr([Str(s), Null])], [], Obj(0)) == [Obj(0), Str(s), Null]
  {
    hide Unvisited;
    var h: Heap := map[0 := Arr([Str(s), Null])];
    var items := [Str(s), Null];
    var table := [Obj(0), Str(s), Null];
    assert [] + [Obj(0)] == [Obj(0)];
    assert items[1..] == [Null] && items[1..][1..] == [];
    assert CollectAll(h, table, []) == table;
    assert [Obj(0), Str(s)] + [Null] == table && [Obj(0)] + [Str(s)] == [Obj(0), Str(s)];
    assert CollectAll(h, [Obj(0), Str(s)], [Null]) == table;
    assert CollectAll(h, [Obj(0)], items) == table;
  }

  /** An array of a 247-character string and a null: 254 bytes of data, but an offset of 261. */
  lemma CreateThrowsNearWidthBoundary(s: Text)
    requires |s| == 247 && IsAscii(s)
    ensures CreateBytes(map[0 := Arr([Str(s), Null])], Obj(0)) == Err(RangeError)
  {
    hide Collect, Unvisited, CollectAll;
    var h: Heap := map[0 := Arr([Str(s), Null])];
    BoundaryTable(s);
    var parts := Body(h, Obj(0));
    CreateParts(h, Obj(0));
    assert |parts| == 3;
    BoundaryParts(h, s, parts);
    CreateReturns(h, Obj(0));
    CollectInHeap(h, [], Obj(0));
  }

  lemma ThreeParts(parts: seq<Bytes>)
    requires |parts| == 3
    ensures |Flatten(parts)| == |parts[0]| + |parts[1]| + |parts[2]|
    ensures Offsets(parts)[2] == 8 + |parts[0]| + |parts[1]|
  {
    var two, one := parts[..2], parts[..1];
    assert two[..1] == one && one[..0] == [];
    assert |Flatten(one)| == |parts[0]| && |Flatten(two)| == |Flatten(one)| + |parts[1]|;
  }

  lemma BoundaryParts(h: Heap, s: Text, parts: seq<Bytes>)
    requires |s| == 247 && IsAscii(s) && h == map[0 := Arr([Str(s), Null])]
    requires EncodeAll(h, [Obj(0), Str(s), Null], 1, [Obj(0), Str(s), Null]) == Ok(parts)
    ensures |Flatten(parts)| == 254 && Offsets(parts)[2] == 261
  {
    var table := [Obj(0), Str(s), Null];
    EncodeAllAt(h, table, 1, table, 0);
    EncodeAllAt(h, table, 1, table, 1);
    EncodeAllAt(h, table, 1, table, 2);
    assert |parts[0]| == 3 && |parts[1]| == 250 && |parts[2]| == 1;
    ThreeParts(parts);
  }
}
