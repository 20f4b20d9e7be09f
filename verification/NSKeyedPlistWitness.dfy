/** The number 200, sent the way the DTX layer sends it, comes back as -56. */
module NSKeyedPlistWitness {
  import opened Bytes
  import opened Wrappers
  import P = PlistGraph
  import F = BinaryPlistFormat
  import L = BinaryPlistLayout
  import G = BinaryPlistReading
  import N = NSKeyedEncoding
  import D = NSKeyedDecoding
  import opened NSKeyedPlistGraph
  import opened NSKeyedRereading
  import opened NSKeyedOverPlist

  const SENT := N.Num(200)
  const OBJECTS := [N.Plain(N.Str("$null")), N.Plain(SENT)]

  lemma TwoHundredArchived()
    ensures N.Archive(map[], N.START, SENT) == N.One(1, N.State(OBJECTS, map[], map[]))
    ensures Width(OBJECTS) == FIXED
  {
    assert N.START.objects + [N.Plain(SENT)] == OBJECTS;
    assert OBJECTS[..1] == [N.Plain(N.Str("$null"))] && OBJECTS[..1][..0] == [];
    assert Width(OBJECTS[..1][..0]) == FIXED && Width(OBJECTS[..1]) == FIXED;
  }

  function Text(s: string): P.Value {
    P.Str(ToText(s))
  }

  /** Every value of the document. */
  function Values(): seq<P.Value> {
    [Slot(FIXED, 2, 0), Slot(FIXED, 2, 1), Slot(FIXED, 2, 2), Slot(FIXED, 2, 3), Text("$version"), Text("$archiver"),
     Text("$top"), Text("$objects"), Text("NSKeyedArchiver"), Text("root"), Text("$null"), P.Num(100000), P.Num(200)]
  }

  function Heap(): P.Heap {
    GraphOf(OBJECTS, 1)
  }

  lemma Nodes()
    ensures forall k: nat :: k < FIXED ==>
              Slot(FIXED, 2, k).id in Heap() && Heap()[Slot(FIXED, 2, k).id] == DocumentNode(FIXED, OBJECTS, 1, k)
  {
    hide GraphOf, DocumentNode, Width;
    TwoHundredArchived();
    forall k: nat | k < FIXED
      ensures Slot(FIXED, 2, k).id in Heap() && Heap()[Slot(FIXED, 2, k).id] == DocumentNode(FIXED, OBJECTS, 1, k)
    {
      NodeOf(OBJECTS, 1, 2, k);
    }
  }

  // ----- the table of the document -----

  lemma {:induction false} KidOfDict(es: seq<P.Entry>, v: P.Value) returns (j: nat)
    requires v in P.DictKids(es)
    ensures j < |es| && (v == P.Str(es[j].key) || v == es[j].value)
  {
    if v == P.Str(es[0].key) || v == es[0].value {
      j := 0;
    } else {
      j := KidOfDict(es[1..], v);
      j := j + 1;
    }
  }

  lemma DocumentKids(k: nat, v: P.Value)
    requires k < 4 && v in P.Kids(DocumentNode(FIXED, OBJECTS, 1, k))
    ensures v in Values()
  {
    hide ToText, Slot, P.DictKids;
    if k == 0 {
      var j := KidOfDict(DocumentNode(FIXED, OBJECTS, 1, 0).entries, v);
      FieldsInValues(j);
    } else if k == 1 {
      TopInValues();
      var j := KidOfDict(DocumentNode(FIXED, OBJECTS, 1, 1).entries, v);
    } else if k == 2 {
      var i :| 0 <= i < 2 && EntryValues(FIXED, OBJECTS)[i] == v;
      EntriesInValues();
    }
  }

  lemma FieldsInValues(j: nat)
    requires j < 4
    ensures var e := DocumentNode(FIXED, OBJECTS, 1, 0).entries[j]; P.Str(e.key) in Values() && e.value in Values()
  {
    hide ToText, Slot;
    var vs := Values();
    assert vs[1] in vs && vs[2] in vs && vs[8] in vs && vs[11] in vs && vs[4] in vs && vs[5] in vs && vs[6] in vs
        && vs[7] in vs;
  }

  lemma TopInValues()
    ensures Text("root") in Values() && Slot(FIXED, 2, 3) in Values()
  {
    hide ToText, Slot;
    assert Values()[9] == Text("root") && Values()[3] == Slot(FIXED, 2, 3);
  }

  lemma EntriesInValues()
    ensures Text("$null") in Values() && P.Num(200) in Values()
  {
    hide ToText, Slot;
    assert Values()[10] == Text("$null") && Values()[12] == P.Num(200);
  }

  lemma ValuesClosed()
    ensures L.ClosedFrom(Heap(), Values(), 0)
  {
    hide ToText, GraphOf, P.Kids, DocumentNode;
    Nodes();
    forall i, v | 0 <= i < 13 && v in L.Children(Heap(), Values()[i])
      ensures v in Values()
    {
      assert i < 4 && Values()[i] == Slot(FIXED, 2, i);
      DocumentKids(i, v);
    }
  }

  lemma TableInValues(table: seq<P.Value>)
    requires P.ClosedHeap(Heap()) && P.InHeap(Heap(), Slot(FIXED, 2, 0))
             && table == F.Collect(Heap(), [], Slot(FIXED, 2, 0))
    ensures forall v :: v in table ==> v in Values()
    ensures |table| <= 13
  {
    hide GraphOf, F.Collect, Values;
    ValuesClosed();
    L.CollectIsReachability(Heap(), Slot(FIXED, 2, 0));
    FirstValue();
    forall v | v in table
      ensures v in Values()
    {
      var p :| L.IsPath(Heap(), p) && p[0] == Slot(FIXED, 2, 0) && p[|p| - 1] == v;
      L.PathStaysInside(Heap(), Values(), p);
    }
    DistinctBound(table, Values());
  }

  lemma FirstValue()
    ensures |Values()| == 13 && Slot(FIXED, 2, 0) in Values()
  {
    hide ToText;
    assert Values()[0] == Slot(FIXED, 2, 0);
  }

  lemma {:induction false} DistinctBound(a: seq<P.Value>, b: seq<P.Value>)
    requires L.Distinct(a) && forall v :: v in a ==> v in b
    ensures |a| <= |b|
  {
    if a != [] {
      var last := a[|a| - 1];
      assert last in a && last in b;
      var i :| 0 <= i < |b| && b[i] == last;
      var rest := b[..i] + b[i + 1..];
      forall v | v in a[..|a| - 1]
        ensures v in rest
      {
        var k :| 0 <= k < |a| - 1 && a[k] == v;
        assert v in a && v in b && v != last;
        var j :| 0 <= j < |b| && b[j] == v;
        assert rest[if j < i then j else j - 1] == v;
      }
      DistinctBound(a[..|a| - 1], rest);
    }
  }

  // ----- the length of the file -----

  lemma {:induction false} AsciiText(s: string)
    requires forall i :: 0 <= i < |s| ==> s[i] < 128 as char
    ensures |ToText(s)| == |s| && F.IsAscii(ToText(s))
  {
    if s != "" {
      AsciiText(s[1..]);
    }
  }

  lemma TextLength(table: seq<P.Value>, s: string)
    requires |s| <= 15 && forall i :: 0 <= i < |s| ==> s[i] < 128 as char
    ensures P.Str(ToText(s)).Str? && L.Writable(Heap(), Text(s))
    ensures var r := F.EncodeObject(Heap(), table, 1, Text(s)); r.Ok? && |r.value| <= 18
  {
    hide ToText, GraphOf;
    AsciiText(s);
  }

  lemma ContainerLength(h: P.Heap, table: seq<P.Value>, v: P.Value)
    requires v.Obj? && v.id in h && F.EncodeObject(h, table, 1, v).Ok?
    requires (h[v.id].Dict? && |h[v.id].entries| <= 4) || (h[v.id].Arr? && |h[v.id].items| <= 2)
             || (h[v.id].Uid? && h[v.id].uid <= 1)
    ensures |F.EncodeObject(h, table, 1, v).value| <= 18
  {
    hide F.EncodeNums, Pow256, BE;
  }

  lemma NumberLength(h: P.Heap, table: seq<P.Value>, n: int)
    requires n == 100000 || n == 200
    ensures var r := F.EncodeObject(h, table, 1, P.Num(n)); r.Ok? && |r.value| <= 18
  {
  }

  lemma SlotIsWritable(k: nat)
    requires k < 4
    ensures Slot(FIXED, 2, k).id in Heap() && L.Writable(Heap(), Slot(FIXED, 2, k))
    ensures var node := Heap()[Slot(FIXED, 2, k).id];
            || (node.Dict? && |node.entries| <= 4) || (node.Arr? && |node.items| <= 2) || (node.Uid? && node.uid <= 1)
  {
    hide GraphOf, ToText;
    Nodes();
  }

  /** Every value of the document is written in at most 18 bytes. */
  lemma ValueLength(table: seq<P.Value>, i: nat)
    requires P.ClosedHeap(Heap()) && P.InHeap(Heap(), Slot(FIXED, 2, 0))
             && table == F.Collect(Heap(), [], Slot(FIXED, 2, 0))
    requires i < 13 && F.RefSize(table) == 1 && |table| <= 13
    ensures P.InHeap(Heap(), Values()[i]) && L.Writable(Heap(), Values()[i])
    ensures var r := F.EncodeObject(Heap(), table, 1, Values()[i]); r.Ok? && |r.value| <= 18
  {
    hide GraphOf, ToText, F.EncodeObject, L.Writable, F.Collect;
    if i < 4 {
      SlotIsWritable(i);
      L.EncodeObjectOk(Heap(), Slot(FIXED, 2, 0), Slot(FIXED, 2, i));
      ContainerLength(Heap(), table, Slot(FIXED, 2, i));
    } else if i < 11 {
      var names := ["$version", "$archiver", "$top", "$objects", "NSKeyedArchiver", "root", "$null"];
      TextLength(table, names[i - 4]);
    } else {
      NumberWritable(i);
      NumberLength(Heap(), table, if i == 11 then 100000 else 200);
    }
  }

  lemma NumberWritable(i: nat)
    requires 11 <= i < 13
    ensures Values()[i] == P.Num(if i == 11 then 100000 else 200) && L.Writable(Heap(), Values()[i])
  {
    hide GraphOf, ToText;
  }

  lemma {:induction false} FlattenBound(parts: seq<Bytes>, w: nat)
    requires forall i :: 0 <= i < |parts| ==> |parts[i]| <= w
    ensures |Flatten(parts)| <= |parts| * w
  {
    if parts != [] {
      FlattenBound(parts[..|parts| - 1], w);
      assert |parts| * w == (|parts| - 1) * w + w;
    }
  }

  lemma BodyIsShort(parts: seq<Bytes>)
    requires P.ClosedHeap(Heap()) && P.InHeap(Heap(), Slot(FIXED, 2, 0)) && parts == L.Body(Heap(), Slot(FIXED, 2, 0))
    requires var table := F.Collect(Heap(), [], Slot(FIXED, 2, 0));
             && (forall v :: v in table ==> P.InHeap(Heap(), v))
             && F.EncodeAll(Heap(), table, F.RefSize(table), table).Ok?
             && |table| <= 13 && F.RefSize(table) == 1 && forall v :: v in table ==> v in Values()
    ensures |parts| <= 13 && |Flatten(parts)| <= 234
  {
    hide GraphOf, F.Collect, Values, F.EncodeObject, F.EncodeAll, Flatten, Slot;
    var table := F.Collect(Heap(), [], Slot(FIXED, 2, 0));
    forall i | 0 <= i < |parts|
      ensures |parts[i]| <= 18
    {
      L.EncodeAllAt(Heap(), table, 1, table, i);
      assert table[i] in table && table[i] in Values();
      var j :| 0 <= j < |Values()| && Values()[j] == table[i];
      FirstValue();
      ValueLength(table, j);
    }
    FlattenBound(parts, 18);
    MulMono(|parts|, 13, 18);
  }

  /** The document of 200 is written, in a file of fewer than 300 bytes. */
  lemma TwoHundredIsWritten()
    ensures N.ClosedHeap(map[]) && N.InHeap(map[], SENT)
    ensures ArchiveFile(map[], SENT).Ok? && |ArchiveFile(map[], SENT).value| < 300
  {
    hide GraphOf, F.Collect, Values, F.EncodeObject, F.EncodeAll, Flatten, F.CreateBytes, N.Archive, L.Writable,
        F.Assemble;
    hide F.Offsets, L.Body, Slot;
    TwoHundredArchived();
    GraphIsJs(OBJECTS, 1);
    var h, top := Heap(), Slot(FIXED, 2, 0);
    var table, parts := F.Collect(h, [], top), L.Body(h, top);
    TableInValues(table);
    L.RootFirst(h, top);
    assert F.RefSize(table) == 1;
    forall v | v in table
      ensures P.InHeap(h, v) && L.Writable(h, v)
    {
      assert v in Values();
      var j :| 0 <= j < |Values()| && Values()[j] == v;
      FirstValue();
      ValueLength(table, j);
    }
    L.CreateParts(h, top);
    BodyIsShort(parts);
    L.CollectIsReachability(h, top);
    L.CreateReturnsInWidthClass(h, top);
    FileLength(table, parts);
  }

  lemma FileLength(table: seq<P.Value>, parts: seq<Bytes>)
    requires F.RefSize(table) == 1 && F.Assemble(table, 1, parts).Ok? && |Flatten(parts)| <= 234 && |parts| <= 13
    ensures |F.Assemble(table, 1, parts).value| < 300
  {
    hide F.EncodeNums, Flatten, F.Offsets, F.Trailer;
  }

  /** 200 goes out and -56 comes back, over the whole path. */
  lemma TwoHundredOverThePath(text: D.Raw -> string)
    ensures N.ClosedHeap(map[]) && N.InHeap(map[], SENT) && ArchiveFile(map[], SENT).Ok?
    ensures G.ParseBytes(ArchiveFile(map[], SENT).value).Ok?
    ensures DecodeFile(ArchiveFile(map[], SENT).value, ARCHIVE_DEPTH, text) == D.RNum(-56)
  {
    hide ArchiveFile, G.ParseBytes, DecodeFile, N.Archive;
    TwoHundredIsWritten();
    TwoHundredArchived();
    WholePath(map[], (id: nat) => 0, SENT, text, ArchiveFile(map[], SENT).value, ARCHIVE_DEPTH);
  }
}
