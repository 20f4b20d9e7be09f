/** The main results about creating and re-reading binary plists. */
module BinaryPlistTheorems {
  import opened Bytes
  import opened Wrappers
  import opened PlistGraph
  import opened BinaryPlistFormat
  import opened BinaryPlistCreator
  import opened BinaryPlistReading
  import opened BinaryPlistParser
  import opened BinaryPlistLayout
  import opened BinaryPlistObjects
  import opened BinaryPlistRoundTrip

  // ----- the file as a whole -----

  lemma TrailerReads(prefix: Bytes, offsetSize: Byte, refSize: Byte, n: nat, tableOffset: nat)
    requires n < TWO64 && tableOffset < TWO64
    ensures ReadTrailer(prefix + Trailer(offsetSize, refSize, n, tableOffset)) ==
            Ok(TrailerInfo(offsetSize, refSize, n, 0, tableOffset))
  {
    var t := Trailer(offsetSize, refSize, n, tableOffset);
    var buf := prefix + t;
    Pow256Values();
    assert buf[|buf| - TRAILER_SIZE..] == t;
    assert t[8..16] == BE(n, 8) && t[16..24] == BE(0, 8) && t[24..32] == BE(tableOffset, 8);
    BERoundTrip(n, 8);
    BERoundTrip(0, 8);
    BERoundTrip(tableOffset, 8);
  }

  lemma OffsetReads(buf: Bytes, t: TrailerInfo, ns: seq<nat>, i: nat)
    requires EncodeNums(ns, t.offsetSize).Ok? && i < |ns| && t.offsetSize > 0 && ns[i] < TWO31
    requires At(buf, t.tableOffset, EncodeNums(ns, t.offsetSize).value)
    ensures ReadOffset(buf, t, i) == Ok(ns[i])
  {
    hide EncodeNums, At, ReadInt, BE, Pow256;
    EncodeNumsAt(ns, t.offsetSize, i);
    ReadPart(buf, t.tableOffset, EncodeNums(ns, t.offsetSize).value, i * t.offsetSize, ns[i], t.offsetSize);
  }

  lemma MiddleAt(buf: Bytes, pre: Bytes, middle: Bytes, post: Bytes)
    requires buf == pre + middle + post
    ensures At(buf, |pre|, middle)
  {
  }

  lemma PartAt(buf: Bytes, body: Bytes, parts: seq<Bytes>, i: nat)
    requires body == Flatten(parts) && At(buf, |MAGIC|, body) && i < |parts|
    ensures At(buf, Offsets(parts)[i], parts[i])
  {
    hide Flatten, Offsets, At;
    FlattenAt(parts, i);
    var start := Offsets(parts)[i] - |MAGIC|;
    AtSub(buf, |MAGIC|, body, start, start + |parts[i]|);
  }

  /** The trailer written for a table and its parts. */
  function InfoOf(table: seq<Value>, parts: seq<Bytes>): TrailerInfo {
    TrailerInfo(MinByteSize(|Flatten(parts)|), RefSize(table), |table|, 0, |MAGIC| + |Flatten(parts)|)
  }

  lemma AssembledSections(table: seq<Value>, parts: seq<Bytes>, buf: Bytes)
    requires Assemble(table, RefSize(table), parts) == Ok(buf) && |buf| < TWO31 && |table| == |parts|
    ensures |buf| >= 8 && buf[..8] == MAGIC
    ensures |table| < TWO31 && ReadTrailer(buf) == Ok(InfoOf(table, parts))
    ensures At(buf, |MAGIC|, Flatten(parts)) && |Flatten(parts)| + |MAGIC| < TWO31
    ensures var t := InfoOf(table, parts);
            var offsets := EncodeNums(Offsets(parts), t.offsetSize);
            offsets.Ok? && At(buf, t.tableOffset, offsets.value) && t.offsetSize > 0
  {
    hide EncodeNums, Flatten, Offsets, Trailer, ReadTrailer, At;
    var body, t := Flatten(parts), InfoOf(table, parts);
    var offsets := EncodeNums(Offsets(parts), t.offsetSize).value;
    var trailer := Trailer(t.offsetSize, t.refSize, |table|, t.tableOffset);
    MulMono(1, t.offsetSize, |parts|);
    assert |buf| == |MAGIC| + |body| + |offsets| + TRAILER_SIZE;
    TrailerReads(MAGIC + body + offsets, t.offsetSize, t.refSize, |table|, t.tableOffset);
    MiddleAt(buf, MAGIC + body, offsets, trailer);
    assert buf == MAGIC + body + (offsets + trailer);
    MiddleAt(buf, MAGIC, body, offsets + trailer);
  }

  lemma AssembledReads(table: seq<Value>, parts: seq<Bytes>, buf: Bytes, i: nat)
    requires Assemble(table, RefSize(table), parts) == Ok(buf) && |buf| < TWO31 && |table| == |parts|
    requires i < |parts|
    ensures At(buf, Offsets(parts)[i], parts[i])
    ensures ReadOffset(buf, InfoOf(table, parts), i) == Ok(Offsets(parts)[i])
  {
    hide EncodeNums, Flatten, Offsets, At, ReadOffset, Assemble, ReadTrailer, InfoOf, MinByteSize;
    AssembledSections(table, parts, buf);
    PartAt(buf, Flatten(parts), parts, i);
    FlattenAt(parts, i);
    OffsetReads(buf, InfoOf(table, parts), Offsets(parts), i);
  }

  lemma CollectJsValues(h: Heap, root: Value)
    requires JsHeap(h) && JsValue(h, root)
    ensures forall v :: v in Collect(h, [], root) ==> JsValue(h, v)
  {
    CollectIsReachability(h, root);
    forall v | v in Collect(h, [], root)
      ensures JsValue(h, v)
    {
      var p :| IsPath(h, p) && p[0] == root && p[|p| - 1] == v;
      if |p| > 1 {
        assert p[|p| - 2 + 1] in Children(h, p[|p| - 2]);
      }
    }
  }

  /** Every object takes an offset entry, so the table of a file is shorter than the file. */
  lemma TableFits(h: Heap, root: Value, buf: Bytes)
    requires ClosedHeap(h) && InHeap(h, root) && CreateBytes(h, root) == Ok(buf) && |buf| < TWO31
    ensures |Collect(h, [], root)| < TWO31
  {
    hide Collect, EncodeNums, Flatten, Offsets, Trailer, ReadTrailer, EncodeObject;
    var table := Collect(h, [], root);
    CollectInHeap(h, [], root);
    AssembledSections(table, EncodeAll(h, table, RefSize(table), table).value, buf);
  }

  lemma CreatedFacts(h: Heap, root: Value, buf: Bytes)
    requires JsHeap(h) && JsValue(h, root) && CreateBytes(h, root) == Ok(buf) && |buf| < TWO31
    ensures var table, parts := Collect(h, [], root), Body(h, root);
            && |table| == |parts|
            && Created(h, table, parts, InfoOf(table, parts), buf)
            && ReadTrailer(buf) == Ok(InfoOf(table, parts))
            && |buf| >= 8 && buf[..8] == MAGIC
  {
    hide EncodeAll, EncodeObject, Offsets, Flatten, ReadTrailer, ReadOffset, At, Writable, Reachable, CreateBytes,
        Assemble;
    var table, parts := Collect(h, [], root), Body(h, root);
    TableFits(h, root, buf);
    CreateParts(h, root);
    CollectIsReachability(h, root);
    CollectJsValues(h, root);
    AssembledSections(table, parts, buf);
    forall i | 0 <= i < |table|
      ensures EncodeObject(h, table, RefSize(table), table[i]) == Ok(parts[i])
      ensures At(buf, Offsets(parts)[i], parts[i])
      ensures ReadOffset(buf, InfoOf(table, parts), i) == Ok(Offsets(parts)[i])
    {
      AssembledReads(table, parts, buf, i);
      EncodeAllAt(h, table, RefSize(table), table, i);
    }
  }

  // ----- the salvage path -----

  lemma SmallTable(h: Heap, root: Value)
    requires ClosedHeap(h) && InHeap(h, root) && |Collect(h, [], root)| > 1
    ensures (IsArr(h, root) && h[root.id].items != []) || (IsDict(h, root) && h[root.id].entries != [])
  {
    if root.Obj? {
      assert CollectAll(h, [root], []) == [root];
    }
  }

  lemma NeverSalvages(h: Heap, root: Value, parts: seq<Bytes>, st: State)
    requires ClosedHeap(h) && InHeap(h, root)
    requires var table := Collect(h, [], root); |table| == |parts| && StateIs(h, table, parts, st, |table|, |table|)
    ensures !Salvages(st, InfoOf(Collect(h, [], root), parts))
  {
    var table := Collect(h, [], root);
    RootFirst(h, root);
    if |table| > 1 {
      SmallTable(h, root);
      assert st.table[0] == ItemOf(h, table, parts, 0, |table|);
      assert st.objects[0] == Contents(h, table, 0);
    }
  }

  // ----- main results -----

  /** The objects of the parsed graph are those of the table, with the contents `Contents` gives. */
  ghost predicate ParsedGraph(h: Heap, table: seq<Value>, objects: map<nat, Content>) {
    && (forall i :: i in objects <==> 0 <= i < |table| && MakesObject(h, table[i]))
    && (forall i :: i in objects ==> objects[i] == Contents(h, table, i))
  }

  lemma ParseCreated(h: Heap, table: seq<Value>, parts: seq<Bytes>, t: TrailerInfo, buf: Bytes)
    requires |table| == |parts| && Created(h, table, parts, t, buf)
    ensures ParseFirst(buf, t, |table|).Ok?
    ensures var r := ResolveFirst(buf, t, ParseFirst(buf, t, |table|).value, |table|);
            r.Ok? && StateIs(h, table, parts, r.value, |table|, |table|)
  {
    hide Created, StateIs;
    FirstPhase(h, table, parts, t, buf, |table|);
    SecondPhase(h, table, parts, t, buf, ParseFirst(buf, t, |table|).value, |table|);
  }

  lemma TopIsSeen(h: Heap, root: Value, parts: seq<Bytes>, st: State)
    requires ClosedHeap(h) && InHeap(h, root)
    requires var table := Collect(h, [], root); |table| == |parts| && StateIs(h, table, parts, st, |table|, |table|)
    ensures var table, top := Collect(h, [], root), TopObject(st, InfoOf(Collect(h, [], root), parts));
            top.value == Seen(h, table, |table|, root) && ParsedGraph(h, table, top.objects)
  {
    hide Salvages, Seen, SlotValue, Reachable;
    var table := Collect(h, [], root);
    NeverSalvages(h, root, parts, st);
    CollectIsReachability(h, root);
    SlotIsSeen(h, table, parts, st, |table|, root);
    IndexOfAt(table, 0);
  }

  /**
   * Whenever `create` returns, `parse` accepts its output and builds the same graph: one object per
   * array, dictionary and buffer of the input, every slot as `Seen` says.
   */
  lemma RoundTrip(h: Heap, root: Value, buf: Bytes)
    requires JsHeap(h) && JsValue(h, root) && CreateBytes(h, root) == Ok(buf) && |buf| < TWO31
    ensures ParseBytes(buf).Ok?
    ensures var table, parsed := Collect(h, [], root), ParseBytes(buf).value;
            ParsedGraph(h, table, parsed.objects) && parsed.value == Seen(h, table, |table|, root)
  {
    hide Created, StateIs, ParsedGraph, Seen, ParseFirst, ResolveFirst, TopObject, ReadTrailer, Body, CreateBytes;
    var table, parts := Collect(h, [], root), Body(h, root);
    CreatedFacts(h, root, buf);
    var t := InfoOf(table, parts);
    assert |table| == |parts|;
    ParseCreated(h, table, parts, t, buf);
    TopIsSeen(h, root, parts, ResolveFirst(buf, t, ParseFirst(buf, t, |table|).value, |table|).value);
  }

  /** The value a faithful reader would produce: UIDs as plain integers, everything else unchanged. */
  function Ideal(h: Heap, table: seq<Value>, v: Value): PV {
    match v
    case Null => PNull
    case Bool(b) => PBool(b)
    case Num(n) => PNum(n)
    case Big(n) => NumberOrBig(n)
    case Real(bits) => PReal(bits)
    case Str(s) => PStr(s)
    case Obj(id) =>
      if id in h && h[id].Uid? && h[id].uid >= 0 then PNum(h[id].uid) else PRef(IndexOf(table, v))
  }

  predicate KeepsSlots(h: Heap, table: seq<Value>, i: nat)
    requires i < |table|
  {
    forall v :: v in Children(h, table[i]) ==> Seen(h, table, i, v) == Ideal(h, table, v)
  }

  /** Every slot of every container, and the result itself, is what it should be. */
  predicate Faithful(h: Heap, table: seq<Value>, root: Value) {
    && (forall i :: 0 <= i < |table| ==> KeepsSlots(h, table, i))
    && Seen(h, table, |table|, root) == Ideal(h, table, root)
  }

  /** Integers and UIDs outside the ranges in which writer and reader disagree. */
  predicate SafeLeaf(h: Heap, v: Value) {
    && (v.Num? ==> !(128 <= v.n <= 255))
    && (v.Obj? && v.id in h && h[v.id].Uid? ==> h[v.id].uid <= 65535)
  }

  /** A dictionary that survives being taken for a temporary object: its `value` is itself. */
  predicate SurvivesTypeTest(h: Heap, v: Value) {
    HasTypeKey(h, v) ==> EntryFor(h[v.id].entries, VALUE_KEY) == Some(v)
  }

  /** Dictionaries that are referenced after they are finished: by a later container, or as the result. */
  predicate SafeBackReferences(h: Heap, table: seq<Value>, root: Value) {
    && (forall i, v ::
          0 <= i < |table| && v in Children(h, table[i]) && IndexOf(table, v) < i ==> SurvivesTypeTest(h, v))
    && SurvivesTypeTest(h, root)
  }

  lemma {:induction false} EntryForIsKid(es: seq<Entry>, key: Text)
    ensures EntryFor(es, key).Some? ==> EntryFor(es, key).value in DictKids(es)
  {
    if es != [] && es[0].key != key {
      EntryForIsKid(es[1..], key);
    }
  }

  lemma SeenIsIdeal(h: Heap, table: seq<Value>, i: nat, v: Value)
    requires SafeLeaf(h, v) && (IndexOf(table, v) < i ==> SurvivesTypeTest(h, v))
    ensures Seen(h, table, i, v) == Ideal(h, table, v)
  {
    var j := IndexOf(table, v);
    if j < i && HasTypeKey(h, v) {
      assert Seen(h, table, i, v) == Seen(h, table, j, v) == Image(h, table, v);
    }
  }

  lemma IdealNeedsSafety(h: Heap, table: seq<Value>, i: nat, v: Value)
    requires v in table && Seen(h, table, i, v) == Ideal(h, table, v)
    requires forall x :: x in Children(h, v) ==> x in table
    requires KeepsSlots(h, table, IndexOf(table, v))
    ensures SafeLeaf(h, v) && (IndexOf(table, v) < i ==> SurvivesTypeTest(h, v))
  {
    var j := IndexOf(table, v);
    if j < i && HasTypeKey(h, v) {
      EntryForIsKid(h[v.id].entries, VALUE_KEY);
      match EntryFor(h[v.id].entries, VALUE_KEY)
      case None => assert false;
      case Some(x) =>
        assert x in Children(h, table[j]);
        assert Seen(h, table, j, x) == Ideal(h, table, x) == PRef(j);
        assert x == table[IndexOf(table, x)] == v;
    }
  }

  lemma SafeIsFaithful(h: Heap, table: seq<Value>, root: Value)
    requires Distinct(table) && ClosedFrom(h, table, 0) && root in table
    requires (forall v :: v in table ==> SafeLeaf(h, v)) && SafeBackReferences(h, table, root)
    ensures Faithful(h, table, root)
  {
    forall i, v | 0 <= i < |table| && v in Children(h, table[i])
      ensures Seen(h, table, i, v) == Ideal(h, table, v)
    {
      SeenIsIdeal(h, table, i, v);
    }
    SeenIsIdeal(h, table, |table|, root);
  }

  lemma FaithfulIsSafe(h: Heap, table: seq<Value>, root: Value)
    requires Distinct(table) && ClosedFrom(h, table, 0) && |table| > 0 && table[0] == root && Faithful(h, table, root)
    ensures forall i, v :: 0 <= i < |table| && v in Children(h, table[i]) ==> SafeLeaf(h, v)
    ensures SafeLeaf(h, root) && SafeBackReferences(h, table, root)
  {
    hide SafeLeaf, SurvivesTypeTest, KeepsSlots, Seen, Ideal;
    forall i, v | 0 <= i < |table| && v in Children(h, table[i])
      ensures SafeLeaf(h, v) && (IndexOf(table, v) < i ==> SurvivesTypeTest(h, v))
    {
      ChildIsSafe(h, table, i, v);
    }
    IndexOfAt(table, 0);
    assert KeepsSlots(h, table, 0);
    ChildrenInTable(h, table, 0);
    IdealNeedsSafety(h, table, |table|, root);
  }

  lemma AllSafe(h: Heap, root: Value)
    requires JsHeap(h) && JsValue(h, root)
    requires var table := Collect(h, [], root);
             SafeLeaf(h, root) && forall i, v :: 0 <= i < |table| && v in Children(h, table[i]) ==> SafeLeaf(h, v)
    ensures forall v :: v in Collect(h, [], root) ==> SafeLeaf(h, v)
  {
    hide SafeLeaf, Collect;
    forall v | v in Collect(h, [], root)
      ensures SafeLeaf(h, v)
    {
      LastStep(h, root, v);
    }
  }

  /**
   * The round trip is faithful exactly when no reachable number is in 128..255, no reachable UID is
   * above 65535, and no dictionary with a key `type` is referenced once it is finished, unless its
   * own `value` is itself.
   */
  lemma FaithfulExactlyWhen(h: Heap, root: Value)
    requires JsHeap(h) && JsValue(h, root)
    ensures var table := Collect(h, [], root);
            Faithful(h, table, root) <==>
            (forall v :: v in table ==> SafeLeaf(h, v)) && SafeBackReferences(h, table, root)
  {
    var table := Collect(h, [], root);
    CollectIsReachability(h, root);
    hide Faithful, SafeBackReferences, SafeLeaf;
    if Faithful(h, table, root) {
      FaithfulIsSafe(h, table, root);
      AllSafe(h, root);
    }
    if (forall v :: v in table ==> SafeLeaf(h, v)) && SafeBackReferences(h, table, root) {
      SafeIsFaithful(h, table, root);
    }
  }

  lemma ChildrenInTable(h: Heap, table: seq<Value>, i: nat)
    requires ClosedFrom(h, table, 0) && i < |table|
    ensures forall x :: x in Children(h, table[i]) ==> x in table
  {
  }

  lemma ChildIsSafe(h: Heap, table: seq<Value>, i: nat, v: Value)
    requires Distinct(table) && ClosedFrom(h, table, 0) && i < |table| && v in Children(h, table[i])
    requires forall k :: 0 <= k < |table| ==> KeepsSlots(h, table, k)
    ensures SafeLeaf(h, v) && (IndexOf(table, v) < i ==> SurvivesTypeTest(h, v))
  {
    ChildrenInTable(h, table, i);
    ChildrenInTable(h, table, IndexOf(table, v));
    assert KeepsSlots(h, table, i) && KeepsSlots(h, table, IndexOf(table, v));
    IdealNeedsSafety(h, table, i, v);
  }

  /** A reachable value is the root or the child of a table entry. */
  lemma LastStep(h: Heap, root: Value, v: Value)
    requires JsHeap(h) && JsValue(h, root) && v in Collect(h, [], root)
    ensures v == root || exists i :: 0 <= i < |Collect(h, [], root)| && v in Children(h, Collect(h, [], root)[i])
  {
    var table := Collect(h, [], root);
    CollectIsReachability(h, root);
    var p :| IsPath(h, p) && p[0] == root && p[|p| - 1] == v;
    if |p| > 1 {
      var u := p[|p| - 2];
      assert p[|p| - 2 + 1] in Children(h, u);
      var q := p[..|p| - 1];
      assert IsPath(h, q) by {
        forall i | 0 <= i < |q| - 1
          ensures q[i + 1] in Children(h, q[i])
        {
          assert q[i] == p[i] && p[i + 1] in Children(h, p[i]);
        }
      }
      assert Reachable(h, root, u);
      assert table[IndexOf(table, u)] == u;
    }
  }

  // ----- sharing and unfolding -----

  /** Two slots of the parsed graph hold the same object exactly when they held the same one before. */
  lemma SharingKept(h: Heap, table: seq<Value>, v: Value, w: Value)
    requires Distinct(table) && v in table && w in table && MakesObject(h, v) && MakesObject(h, w)
    ensures Ideal(h, table, v) == Ideal(h, table, w) <==> v == w
  {
  }

  /** A value unfolded to a given depth, with the graph forgotten. */
  datatype Tree =
    | Cut
    | Atom(v: PV)
    | ArrTree(items: seq<Tree>)
    | DictTree(keys: seq<Text>, values: seq<Tree>)
    | DataTree(bytes: Bytes)

  function Unfold(h: Heap, table: seq<Value>, v: Value, depth: nat): Tree
    decreases depth
  {
    if depth == 0 then Cut
    else if IsArr(h, v) then
      var items := h[v.id].items;
      ArrTree(seq(|items|, k requires 0 <= k < |items| => Unfold(h, table, items[k], depth - 1)))
    else if IsDict(h, v) then
      var es := h[v.id].entries;
      DictTree(seq(|es|, k requires 0 <= k < |es| => es[k].key),
               seq(|es|, k requires 0 <= k < |es| => Unfold(h, table, es[k].value, depth - 1)))
    else if IsData(h, v) then DataTree(h[v.id].bytes)
    else Atom(Ideal(h, table, v))
  }

  function UnfoldParsed(objects: map<nat, Content>, v: PV, depth: nat): Tree
    decreases depth
  {
    if depth == 0 then Cut
    else if v.PRef? && v.id in objects then
      match objects[v.id]
      case PArr(items) => ArrTree(seq(|items|,
                                      k requires 0 <= k < |items| => UnfoldParsed(objects, items[k], depth - 1)))
      case PDict(es) =>
        DictTree(seq(|es|, k requires 0 <= k < |es| => es[k].key),
                 seq(|es|, k requires 0 <= k < |es| => UnfoldParsed(objects, es[k].value, depth - 1)))
      case PData(bytes) => DataTree(bytes)
    else Atom(v)
  }

  /** To every depth, the parsed graph unfolds like the graph it was created from. */
  lemma {:induction false} SameUnfolding(h: Heap, table: seq<Value>, root: Value, objects: map<nat, Content>, v: Value,
                                         depth: nat)
    requires ParsedGraph(h, table, objects) && Faithful(h, table, root)
    requires ClosedFrom(h, table, 0) && v in table && InHeap(h, v)
    requires ClosedHeap(h)
    ensures UnfoldParsed(objects, Ideal(h, table, v), depth) == Unfold(h, table, v, depth)
    decreases depth
  {
    hide Unfold, UnfoldParsed, Seen, Ideal;
    if depth > 0 && MakesObject(h, v) {
      var i := IndexOf(table, v);
      assert i in objects && objects[i] == Contents(h, table, i);
      ChildrenInTable(h, table, i);
      forall x | x in Children(h, v)
        ensures Seen(h, table, i, x) == Ideal(h, table, x)
        ensures UnfoldParsed(objects, Ideal(h, table, x), depth - 1) == Unfold(h, table, x, depth - 1)
      {
        assert KeepsSlots(h, table, i);
        SameUnfolding(h, table, root, objects, x, depth - 1);
      }
      UnfoldStep(h, table, objects, v, depth);
    } else {
      UnfoldAtom(h, table, objects, v, depth);
    }
  }

  /** The whole path: created, parsed, and unfolded to any depth, under the exact condition for a faithful copy. */
  lemma ParsedCopy(h: Heap, root: Value, buf: Bytes, depth: nat)
    requires JsHeap(h) && JsValue(h, root) && CreateBytes(h, root) == Ok(buf) && |buf| < TWO31
    requires var table := Collect(h, [], root);
             (forall v :: v in table ==> SafeLeaf(h, v)) && SafeBackReferences(h, table, root)
    ensures ParseBytes(buf).Ok?
    ensures UnfoldParsed(ParseBytes(buf).value.objects, ParseBytes(buf).value.value, depth)
            == Unfold(h, Collect(h, [], root), root, depth)
  {
    hide CreateBytes, ParseBytes, ParsedGraph, SafeLeaf, SafeBackReferences, KeepsSlots, Seen, Ideal, Unfold,
        UnfoldParsed;
    var table := Collect(h, [], root);
    RoundTrip(h, root, buf);
    CollectIsReachability(h, root);
    FaithfulExactlyWhen(h, root);
    SameUnfolding(h, table, root, ParseBytes(buf).value.objects, root, depth);
  }

  lemma UnfoldAtom(h: Heap, table: seq<Value>, objects: map<nat, Content>, v: Value, depth: nat)
    requires depth == 0 || !MakesObject(h, v)
    requires InHeap(h, v) && v in table && (forall i :: i in objects ==> i < |table| && MakesObject(h, table[i]))
    ensures UnfoldParsed(objects, Ideal(h, table, v), depth) == Unfold(h, table, v, depth)
  {
  }

  lemma UnfoldStep(h: Heap, table: seq<Value>, objects: map<nat, Content>, v: Value, depth: nat)
    requires depth > 0 && MakesObject(h, v) && v in table
    requires var i := IndexOf(table, v); i in objects && objects[i] == Contents(h, table, i)
    requires forall x :: x in Children(h, v) ==> Seen(h, table, IndexOf(table, v), x) == Ideal(h, table, x)
    requires forall x :: x in Children(h, v) ==>
               UnfoldParsed(objects, Ideal(h, table, x), depth - 1) == Unfold(h, table, x, depth - 1)
    ensures UnfoldParsed(objects, Ideal(h, table, v), depth) == Unfold(h, table, v, depth)
  {
    var i := IndexOf(table, v);
    if IsArr(h, v) {
      var items := h[v.id].items;
      assert forall k :: 0 <= k < |items| ==> items[k] in Children(h, v);
      assert UnfoldParsed(objects, PRef(i), depth).items == Unfold(h, table, v, depth).items;
    } else if IsDict(h, v) {
      var es := h[v.id].entries;
      forall k | 0 <= k < |es|
        ensures es[k].value in Children(h, v)
      {
        DictKidsMembers(es, k);
      }
      assert UnfoldParsed(objects, PRef(i), depth).keys == Unfold(h, table, v, depth).keys;
      assert UnfoldParsed(objects, PRef(i), depth).values == Unfold(h, table, v, depth).values;
    }
  }
}
