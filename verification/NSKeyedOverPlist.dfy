/** The path the DTX layer takes: archive, write as a binary plist, parse, and decode. */
module NSKeyedOverPlist {
  import opened Bytes
  import opened Wrappers
  import P = PlistGraph
  import F = BinaryPlistFormat
  import G = BinaryPlistReading
  import N = NSKeyedEncoding
  import A = NSKeyedArchiveFacts
  import D = NSKeyedDecoding
  import K = NSKeyedRoundTrip
  import opened NSKeyedPlistGraph
  import opened NSKeyedPlistReading
  import opened NSKeyedRereading

  /** Depth of an archive: the document, its table, an entry, a list of UIDs, and a UID. */
  const ARCHIVE_DEPTH: nat := 5

  /** The largest UID that is read back as it was written. */
  const MAX_UID: nat := 65535

  // ----- the graph of an archive is read back as the archive -----

  /** No entry stands for an object by itself, and every UID is read back as it is. */
  predicate Narrow(a: N.Archived) {
    && (a.Plain? ==> !a.v.Obj?)
    && (forall j :: 0 <= j < |Uids(a)| ==> Uids(a)[j] <= MAX_UID) && ClassOf(a) <= MAX_UID
  }

  predicate NarrowArchive(objects: seq<N.Archived>, root: nat) {
    root <= MAX_UID && forall i :: 0 <= i < |objects| ==> Narrow(objects[i])
  }

  lemma UidIsRaw(g: P.Heap, table: seq<P.Value>, id: nat, uid: nat, depth: nat)
    requires id in g && g[id] == P.Uid(uid) && uid <= MAX_UID && depth > 0
    ensures RawOf(g, table, P.Obj(id), depth) == D.RNum(uid)
  {
  }

  lemma ArrIsRaw(g: P.Heap, table: seq<P.Value>, id: nat, items: seq<P.Value>, depth: nat)
    requires id in g && g[id] == P.Arr(items) && depth > 0
    ensures RawOf(g, table, P.Obj(id), depth) == D.RArr(RawItems(g, table, items, depth - 1))
  {
  }

  lemma DictIsRaw(g: P.Heap, table: seq<P.Value>, id: nat, es: seq<P.Entry>, depth: nat)
    requires id in g && g[id] == P.Dict(es) && depth > 0
    ensures RawOf(g, table, P.Obj(id), depth) == D.RDict(RawFields(g, table, es, depth - 1))
  {
  }

  lemma DataIsRaw(g: P.Heap, table: seq<P.Value>, id: nat, bytes: Bytes, depth: nat)
    requires id in g && g[id] == P.Data(bytes) && depth > 0
    ensures RawOf(g, table, P.Obj(id), depth) == D.RBuf(bytes)
  {
  }

  lemma TextIsRaw(g: P.Heap, table: seq<P.Value>, s: string, depth: nat)
    requires depth > 0
    ensures RawOf(g, table, P.Str(ToText(s)), depth) == D.RStr(s)
  {
    TextRoundTrip(s);
  }

  /** UIDs listed in consecutive slots of an entry. */
  lemma UidsAreRaw(objects: seq<N.Archived>, root: nat, table: seq<P.Value>, i: nat, from: nat, uids: seq<nat>,
                   depth: nat)
    requires i < |objects| && Narrow(objects[i]) && from + |uids| <= |Uids(objects[i])| && depth > 0
    requires uids == Uids(objects[i])[from..from + |uids|]
    ensures RawItems(GraphOf(objects, root), table, Slots(Width(objects), i, FIXED + from, |uids|), depth)
            == K.Numbers(uids)
  {
    hide RawOf, GraphOf, Width, Uids;
    var w := Width(objects);
    forall j | 0 <= j < |uids|
      ensures RawOf(GraphOf(objects, root), table, Slot(w, i, FIXED + from + j), depth) == D.RNum(uids[j])
    {
      NodeOf(objects, root, i, FIXED + from + j);
      assert uids[j] == Uids(objects[i])[from + j];
      UidIsRaw(GraphOf(objects, root), table, Id(w, i, FIXED + from + j), uids[j], depth);
    }
  }

  lemma ClassIsRaw(objects: seq<N.Archived>, root: nat, table: seq<P.Value>, i: nat, depth: nat)
    requires i < |objects| && Narrow(objects[i]) && depth > 0
    ensures RawOf(GraphOf(objects, root), table, Slot(Width(objects), i, 1), depth) == D.RNum(ClassOf(objects[i]))
  {
    hide RawOf, GraphOf, Width;
    NodeOf(objects, root, i, 1);
    UidIsRaw(GraphOf(objects, root), table, Id(Width(objects), i, 1), ClassOf(objects[i]), depth);
  }

  lemma FieldsAreRaw(objects: seq<N.Archived>, root: nat, table: seq<P.Value>, i: nat, depth: nat)
    requires i < |objects| && !objects[i].Plain? && !objects[i].Placeholder? && depth > 0
    ensures var w, g := Width(objects), GraphOf(objects, root);
            RawOf(g, table, EntryValue(w, i, objects[i]), depth)
            == D.RDict(RawFields(g, table, EntryFields(w, i, objects[i]), depth - 1))
  {
    hide RawOf, GraphOf, Width, EntryFields;
    NodeOf(objects, root, i, 0);
    DictIsRaw(GraphOf(objects, root), table, Id(Width(objects), i, 0), EntryFields(Width(objects), i, objects[i]),
              depth);
  }

  lemma ListIsRaw(objects: seq<N.Archived>, root: nat, table: seq<P.Value>, i: nat, depth: nat)
    requires i < |objects| && Narrow(objects[i]) && objects[i].List? && depth >= 2
    ensures RawOf(GraphOf(objects, root), table, Slot(Width(objects), i, 2), depth)
            == D.RArr(K.Numbers(objects[i].uids))
  {
    hide RawOf, GraphOf, Width;
    var w, uids := Width(objects), objects[i].uids;
    NodeOf(objects, root, i, 2);
    ArrIsRaw(GraphOf(objects, root), table, Id(w, i, 2), Slots(w, i, FIXED, |uids|), depth);
    assert uids == Uids(objects[i])[0..|uids|];
    UidsAreRaw(objects, root, table, i, 0, uids, depth - 1);
  }

  lemma PairsAreRaw(objects: seq<N.Archived>, root: nat, table: seq<P.Value>, i: nat, depth: nat)
    requires i < |objects| && Narrow(objects[i]) && objects[i].Dictionary? && depth >= 2
    ensures RawOf(GraphOf(objects, root), table, Slot(Width(objects), i, 3), depth)
            == D.RArr(K.Numbers(objects[i].keys))
    ensures RawOf(GraphOf(objects, root), table, Slot(Width(objects), i, 2), depth)
            == D.RArr(K.Numbers(objects[i].values))
  {
    hide RawOf, GraphOf, Width;
    var w, keys, values := Width(objects), objects[i].keys, objects[i].values;
    NodeOf(objects, root, i, 2);
    NodeOf(objects, root, i, 3);
    ArrIsRaw(GraphOf(objects, root), table, Id(w, i, 3), Slots(w, i, FIXED, |keys|), depth);
    ArrIsRaw(GraphOf(objects, root), table, Id(w, i, 2), Slots(w, i, FIXED + |keys|, |values|), depth);
    assert keys == Uids(objects[i])[0..|keys|] && values == Uids(objects[i])[|keys|..|keys| + |values|];
    UidsAreRaw(objects, root, table, i, 0, keys, depth - 1);
    UidsAreRaw(objects, root, table, i, |keys|, values, depth - 1);
  }

  lemma BufferIsRaw(objects: seq<N.Archived>, root: nat, table: seq<P.Value>, i: nat, depth: nat)
    requires i < |objects| && objects[i].DataObject? && depth >= 1
    ensures RawOf(GraphOf(objects, root), table, Slot(Width(objects), i, 4), depth) == D.RBuf(objects[i].bytes)
  {
    hide RawOf, GraphOf, Width;
    NodeOf(objects, root, i, 4);
    DataIsRaw(GraphOf(objects, root), table, Id(Width(objects), i, 4), objects[i].bytes, depth);
  }

  lemma NamesAreRaw(objects: seq<N.Archived>, root: nat, table: seq<P.Value>, i: nat, depth: nat)
    requires i < |objects| && objects[i].Class? && depth >= 2
    ensures var r := RawOf(GraphOf(objects, root), table, Slot(Width(objects), i, 2), depth);
            && r.RArr? && |r.items| == |objects[i].names|
            && forall j :: 0 <= j < |r.items| ==> r.items[j] == D.RStr(objects[i].names[j])
  {
    hide RawOf, GraphOf, Width, ToText;
    var w, names := Width(objects), objects[i].names;
    NodeOf(objects, root, i, 2);
    ArrIsRaw(GraphOf(objects, root), table, Id(w, i, 2), Names(names), depth);
    forall j | 0 <= j < |names|
      ensures RawOf(GraphOf(objects, root), table, P.Str(ToText(names[j])), depth - 1) == D.RStr(names[j])
    {
      TextIsRaw(GraphOf(objects, root), table, names[j], depth - 1);
    }
  }

  lemma PrimitiveIsRaw(g: P.Heap, table: seq<P.Value>, v: N.Value, depth: nat)
    requires !v.Obj? && depth > 0
    ensures RawOf(g, table, Primitive(v), depth) == K.Primitive(Reread(v))
  {
    if v.Str? {
      TextIsRaw(g, table, v.s, depth);
    }
  }

  lemma KeyIsRaw(key: string)
    ensures FromText(ToText(key)) == key
  {
    TextRoundTrip(key);
  }

  lemma EntryIsRaw(objects: seq<N.Archived>, root: nat, table: seq<P.Value>, i: nat, depth: nat)
    requires i < |objects| && Narrow(objects[i]) && depth >= 3
    ensures RawOf(GraphOf(objects, root), table, EntryValue(Width(objects), i, objects[i]), depth)
            == K.ToRaw(RereadEntry(objects[i]))
  {
    hide RawOf, GraphOf, Width, ToText, FromText, Slot;
    var g, w, a := GraphOf(objects, root), Width(objects), objects[i];
    if a.Plain? {
      PrimitiveIsRaw(g, table, a.v, depth);
    } else if a.Placeholder? {
      PrimitiveIsRaw(g, table, N.Null, depth);
    } else {
      FieldsAreRaw(objects, root, table, i, depth);
      var fields := RawFields(g, table, EntryFields(w, i, a), depth - 1);
      ClassIsRaw(objects, root, table, i, depth - 1);
      KeyIsRaw("NS.objects");
      KeyIsRaw("$class");
      match a
      case List(uids, cls) =>
        ListIsRaw(objects, root, table, i, depth - 1);
        assert fields == K.ToRaw(a).entries;
      case Dictionary(keys, values, cls) =>
        PairsAreRaw(objects, root, table, i, depth - 1);
        KeyIsRaw("NS.keys");
        assert fields == K.ToRaw(a).entries;
      case DataObject(bytes, cls) =>
        BufferIsRaw(objects, root, table, i, depth - 1);
        KeyIsRaw("NS.data");
        assert fields == K.ToRaw(a).entries;
      case Class(names) =>
        NamesAreRaw(objects, root, table, i, depth - 1);
        TextIsRaw(g, table, if names == [] then "" else names[0], depth - 1);
        KeyIsRaw("$classes");
        KeyIsRaw("$classname");
        assert fields[0].value.items == K.ToRaw(a).entries[0].value.items;
        assert fields == K.ToRaw(a).entries;
    }
  }

  lemma TopIsRaw(objects: seq<N.Archived>, root: nat, table: seq<P.Value>, depth: nat)
    requires root <= MAX_UID && depth >= 2
    ensures RawOf(GraphOf(objects, root), table, Slot(Width(objects), |objects|, 1), depth) == K.TopOf(root)
  {
    hide RawOf, GraphOf, Width, ToText, FromText;
    var g, w, n := GraphOf(objects, root), Width(objects), |objects|;
    NodeOf(objects, root, n, 1);
    NodeOf(objects, root, n, 3);
    var es := DocumentNode(w, objects, root, 1).entries;
    DictIsRaw(g, table, Id(w, n, 1), es, depth);
    UidIsRaw(g, table, Id(w, n, 3), root, depth - 1);
    KeyIsRaw("root");
    assert RawFields(g, table, es, depth - 1) == K.TopOf(root).entries;
  }

  lemma ObjectsAreRaw(objects: seq<N.Archived>, root: nat, table: seq<P.Value>, depth: nat)
    requires NarrowArchive(objects, root) && depth >= 4
    ensures RawOf(GraphOf(objects, root), table, Slot(Width(objects), |objects|, 2), depth)
            == D.RArr(Entries(RereadEntries(objects)))
  {
    hide RawOf, GraphOf, Width, EntryValue, K.ToRaw, Narrow;
    var g, w, n := GraphOf(objects, root), Width(objects), |objects|;
    NodeOf(objects, root, n, 2);
    ArrIsRaw(g, table, Id(w, n, 2), EntryValues(w, objects), depth);
    forall i | 0 <= i < n
      ensures RawOf(g, table, EntryValue(w, i, objects[i]), depth - 1) == K.ToRaw(RereadEntry(objects[i]))
    {
      EntryIsRaw(objects, root, table, i, depth - 1);
    }
  }

  /** The document is read back as the archive, its numbers as the plist layer reads them. */
  lemma DocumentIsRaw(objects: seq<N.Archived>, root: nat, table: seq<P.Value>, depth: nat)
    requires NarrowArchive(objects, root) && depth >= ARCHIVE_DEPTH
    ensures RawOf(GraphOf(objects, root), table, DocumentOf(objects), depth) == ArchiveRaw(RereadEntries(objects), root)
  {
    hide RawOf, GraphOf, Width, ToText, FromText, Slot, NarrowArchive, RereadEntries, Entries;
    var g, w, n := GraphOf(objects, root), Width(objects), |objects|;
    NodeOf(objects, root, n, 0);
    var es := DocumentNode(w, objects, root, 0).entries;
    DocumentSlot(w, n, g, table, es, depth);
    DocumentUids(objects, root);
    TopIsRaw(objects, root, table, depth - 1);
    ObjectsAreRaw(objects, root, table, depth - 1);
    VersionIsRaw(g, table, depth - 1);
    TextIsRaw(g, table, "NSKeyedArchiver", depth - 1);
    KeyIsRaw("$version");
    KeyIsRaw("$archiver");
    KeyIsRaw("$top");
    KeyIsRaw("$objects");
    assert RawFields(g, table, es, depth - 1) == ArchiveRaw(RereadEntries(objects), root).entries;
  }

  lemma DocumentSlot(w: nat, n: nat, g: P.Heap, table: seq<P.Value>, es: seq<P.Entry>, depth: nat)
    requires Id(w, n, 0) in g && g[Id(w, n, 0)] == P.Dict(es) && depth > 0
    ensures RawOf(g, table, Slot(w, n, 0), depth) == D.RDict(RawFields(g, table, es, depth - 1))
  {
    DictIsRaw(g, table, Id(w, n, 0), es, depth);
  }

  lemma DocumentUids(objects: seq<N.Archived>, root: nat)
    requires NarrowArchive(objects, root)
    ensures root <= MAX_UID
  {
  }

  lemma VersionIsRaw(g: P.Heap, table: seq<P.Value>, depth: nat)
    requires depth > 0
    ensures RawOf(g, table, P.Num(100000), depth) == D.RNum(100000)
  {
  }

  // ----- the archive of a value -----

  lemma HeldBelowEnd(st: N.State, vs: seq<N.Value>, uids: seq<nat>)
    requires A.WellFormed(st) && A.HoldsAll(st, vs, uids)
    ensures forall j :: 0 <= j < |uids| ==> uids[j] < |st.objects|
  {
    forall j | 0 <= j < |uids|
      ensures uids[j] < |st.objects|
    {
      assert A.Holds(st, vs[j], uids[j]);
    }
  }

  lemma EntryIsNarrow(h: N.Heap, st: N.State, i: nat)
    requires K.Finished(h, st) && i < |st.objects| <= MAX_UID + 1
    ensures Narrow(st.objects[i])
  {
    hide A.WellFormed, A.HoldsAll;
    var a := st.objects[i];
    PlainIsNoObject(st, i);
    if A.IsContainerEntry(a) {
      K.ContainerOwned(st, i);
      var id :| id in st.cache && st.cache[id] == i;
      assert A.Written(h, st, id);
      match h[id]
      case ArrayNode(items) => HeldBelowEnd(st, items, a.uids);
      case SetNode(items) => HeldBelowEnd(st, items, a.uids);
      case DictNode(es) =>
        HeldBelowEnd(st, N.Keys(es), a.keys);
        HeldBelowEnd(st, N.Values(es), a.values);
      case BufferNode(_) =>
    }
  }

  lemma PlainIsNoObject(st: N.State, i: nat)
    requires A.WellFormed(st) && i < |st.objects|
    ensures st.objects[i].Plain? ==> !st.objects[i].v.Obj?
  {
  }

  lemma ArchiveIsNarrow(h: N.Heap, root: N.Value)
    requires N.ClosedHeap(h) && N.InHeap(h, root) && |N.Archive(h, N.START, root).st.objects| <= MAX_UID + 1
    ensures var r := N.Archive(h, N.START, root); NarrowArchive(r.st.objects, r.index)
  {
    hide Narrow, N.Archive, A.Written, A.WellFormed;
    var r := N.Archive(h, N.START, root);
    A.EncodeFacts(h, root);
    HolderBelowEnd(r.st, root, r.index);
    forall i | 0 <= i < |r.st.objects|
      ensures Narrow(r.st.objects[i])
    {
      EntryIsNarrow(h, r.st, i);
    }
  }

  lemma HolderBelowEnd(st: N.State, v: N.Value, i: nat)
    requires A.WellFormed(st) && A.Holds(st, v, i)
    ensures i < |st.objects|
  {
  }

  // ----- the whole path -----

  /** The object graph of the archive of `root`, and the document in it. */
  function ArchiveGraph(h: N.Heap, root: N.Value): P.Heap
    requires N.ClosedHeap(h) && N.InHeap(h, root)
  {
    var r := N.Archive(h, N.START, root);
    GraphOf(r.st.objects, r.index)
  }

  function ArchiveDocument(h: N.Heap, root: N.Value): P.Value
    requires N.ClosedHeap(h) && N.InHeap(h, root)
  {
    DocumentOf(N.Archive(h, N.START, root).st.objects)
  }

  /** The file `createBinaryPlist(encode(root))`. */
  function ArchiveFile(h: N.Heap, root: N.Value): Result<Bytes, F.Error>
    requires N.ClosedHeap(h) && N.InHeap(h, root)
  {
    var r := N.Archive(h, N.START, root);
    GraphIsJs(r.st.objects, r.index);
    F.CreateBytes(ArchiveGraph(h, root), ArchiveDocument(h, root))
  }

  /** `decodeNSKeyedArchiver(parseBinaryPlist(buf))`, the parsed value followed to `depth`. */
  function DecodeFile(buf: Bytes, depth: nat, text: D.Raw -> string): D.Raw
    requires G.ParseBytes(buf).Ok?
  {
    var parsed := G.ParseBytes(buf).value;
    DecodeParsed(RawParsed(parsed.objects, parsed.value, depth), text)
  }

  /** The archive is parsed back as the archive of the value with the numbers read back. */
  lemma ArchiveIsReread(h: N.Heap, root: N.Value, buf: Bytes, depth: nat)
    requires N.ClosedHeap(h) && N.InHeap(h, root) && |N.Archive(h, N.START, root).st.objects| <= MAX_UID + 1
    requires ArchiveFile(h, root) == Ok(buf) && |buf| < TWO31 && depth >= ARCHIVE_DEPTH
    ensures G.ParseBytes(buf).Ok?
    ensures var parsed, r := G.ParseBytes(buf).value, N.Archive(h, N.START, root);
            RawParsed(parsed.objects, parsed.value, depth) == ArchiveRaw(RereadEntries(r.st.objects), r.index)
  {
    hide F.CreateBytes, G.ParseBytes, RawParsed, RawOf, ArchiveRaw, N.Archive, GraphOf, DocumentOf, NoTypeKeys,
        F.Collect;
    hide NarrowArchive;
    var r := N.Archive(h, N.START, root);
    var g, top := GraphOf(r.st.objects, r.index), DocumentOf(r.st.objects);
    ArchiveIsNarrow(h, root);
    GraphIsJs(r.st.objects, r.index);
    GraphHasNoTypeKeys(r.st.objects, r.index);
    WrittenIsRaw(g, top, buf, depth);
    DocumentIsRaw(r.st.objects, r.index, F.Collect(g, [], top), depth);
  }

  /**
   * Archive, create, parse, decode: for every acyclic value nested at most 1000 deep whose archive has at
   * most 65536 entries, the result is `Tree` of the value with its numbers as the plist layer reads them.
   */
  lemma WholePath(h: N.Heap, rk: nat -> nat, root: N.Value, text: D.Raw -> string, buf: Bytes, depth: nat)
    requires K.Graph(h, rk) && N.InHeap(h, root) && K.RankOf(rk, root) <= 1000
    requires |N.Archive(h, N.START, root).st.objects| <= MAX_UID + 1
    requires ArchiveFile(h, root) == Ok(buf) && |buf| < TWO31 && depth >= ARCHIVE_DEPTH
    ensures G.ParseBytes(buf).Ok? && K.Graph(RereadHeap(h), rk) && N.InHeap(RereadHeap(h), Reread(root))
    ensures DecodeFile(buf, depth, text) == K.Tree(RereadHeap(h), rk, Reread(root))
  {
    hide ArchiveFile, G.ParseBytes, RawParsed, ArchiveRaw, DecodeParsed, N.Archive, K.Tree, RereadEntries, N.ClosedHeap;
    var r := N.Archive(h, N.START, root);
    ArchiveIsReread(h, root, buf, depth);
    DecodeArchiveRaw(RereadEntries(r.st.objects), r.index, text);
    RereadGraph(h, rk);
    RereadArchive(h, N.START, root);
    NoNumbersAtStart();
    K.RoundTrip(RereadHeap(h), rk, Reread(root), text);
  }

  lemma NoNumbersAtStart()
    ensures RereadState(N.START) == N.START
  {
  }

  /** The value comes back exactly when it has no buffer, no string or key "$null" and no number in 128..255. */
  lemma WholePathFaithfulExactlyWhen(h: N.Heap, rk: nat -> nat, root: N.Value, text: D.Raw -> string, buf: Bytes,
                                     depth: nat)
    requires K.Graph(h, rk) && N.InHeap(h, root) && K.RankOf(rk, root) <= 1000
    requires |N.Archive(h, N.START, root).st.objects| <= MAX_UID + 1
    requires ArchiveFile(h, root) == Ok(buf) && |buf| < TWO31 && depth >= ARCHIVE_DEPTH
    ensures G.ParseBytes(buf).Ok?
    ensures DecodeFile(buf, depth, text) == K.Original(h, rk, root) <==> Survives(h, rk, root)
  {
    hide ArchiveFile, G.ParseBytes, DecodeFile, K.Tree, K.Original, Survives, N.Archive;
    WholePath(h, rk, root, text, buf, depth);
    SameWhenSurvives(h, rk, root);
  }
}
