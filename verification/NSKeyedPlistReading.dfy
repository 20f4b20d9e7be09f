/** What a written property list is read back as, and how an archive in it is decoded. */
module NSKeyedPlistReading {
  import opened Bytes
  import opened Wrappers
  import P = PlistGraph
  import F = BinaryPlistFormat
  import L = BinaryPlistLayout
  import R = BinaryPlistRoundTrip
  import G = BinaryPlistReading
  import T = BinaryPlistTheorems
  import N = NSKeyedEncoding
  import D = NSKeyedDecoding
  import K = NSKeyedRoundTrip
  import opened NSKeyedPlistGraph

  // ----- parsed property lists as the decoder sees them -----

  function AtomRaw(v: G.PV): D.Raw {
    match v
    case PNull => D.RNull
    case PBool(b) => D.RBool(b)
    case PNum(n) => D.RNum(n)
    case PReal(bits) => D.RReal(bits)
    case PStr(s) => D.RStr(FromText(s))
    case _ => D.RUndefined
  }

  /** The parsed value, followed to `depth`. */
  function RawParsed(objects: map<nat, G.Content>, v: G.PV, depth: nat): D.Raw
    decreases depth
  {
    if depth == 0 then D.RUndefined
    else if v.PRef? && v.id in objects then
      match objects[v.id]
      case PArr(items) => D.RArr(seq(|items|, j requires 0 <= j < |items| => RawParsed(objects, items[j], depth - 1)))
      case PDict(es) =>
        D.RDict(seq(|es|, j requires 0 <= j < |es| =>
          D.Field(FromText(es[j].key), RawParsed(objects, es[j].value, depth - 1))))
      case PData(bytes) => D.RBuf(bytes)
    else AtomRaw(v)
  }

  /** `decodeNSKeyedArchiver`: anything that is not an archive is returned as it is. */
  function DecodeParsed(data: D.Raw, text: D.Raw -> string): D.Raw {
    if D.Has(data, "$archiver") && D.Get(data, "$archiver") == D.RStr("NSKeyedArchiver")
       && D.Has(data, "$objects") && D.Get(data, "$objects").RArr?
    then
      D.DecodeArchive(D.Table(D.Get(data, "$objects").items, text),
                      if D.Has(data, "$top") then D.Get(data, "$top") else D.RUndefined)
    else data
  }

  /** The object `encode` returns, UIDs as numbers. */
  function ArchiveRaw(objects: seq<N.Archived>, root: nat): D.Raw {
    D.RDict([D.Field("$version", D.RNum(100000)), D.Field("$archiver", D.RStr("NSKeyedArchiver")),
             D.Field("$top", K.TopOf(root)), D.Field("$objects", D.RArr(Entries(objects)))])
  }

  function Entries(objects: seq<N.Archived>): (r: seq<D.Raw>)
    ensures |r| == |objects| && forall i :: 0 <= i < |r| ==> r[i] == K.ToRaw(objects[i])
  {
    seq(|objects|, i requires 0 <= i < |objects| => K.ToRaw(objects[i]))
  }

  lemma DecodeArchiveRaw(objects: seq<N.Archived>, root: nat, text: D.Raw -> string)
    ensures DecodeParsed(ArchiveRaw(objects, root), text) == D.DecodeArchive(K.TableOf(objects, text), K.TopOf(root))
  {
    hide D.DecodeArchive, K.ToRaw;
    var es := ArchiveRaw(objects, root).entries;
    var es1 := es[1..];
    var es2 := es1[1..];
    var es3 := es2[1..];
    assert es1[0] == es[1] && es2[0] == es[2] && es3[0] == es[3];
    assert D.FieldOf(es3, "$objects") == Some(es[3].value) && D.FieldOf(es2, "$top") == Some(es[2].value);
    assert D.FieldOf(es2, "$objects") == D.FieldOf(es3, "$objects") && D.FieldOf(es1, "$archiver") == Some(es[1].value);
    assert D.FieldOf(es1, "$objects") == D.FieldOf(es2, "$objects") && D.FieldOf(es1, "$top") == D.FieldOf(es2, "$top");
    assert D.FieldOf(es, "$archiver") == Some(es[1].value) && D.FieldOf(es, "$objects") == Some(es[3].value);
    assert D.FieldOf(es, "$top") == Some(es[2].value);
    assert Entries(objects) == K.TableOf(objects, text).objects;
  }

  // ----- what a written graph is read back as -----

  /** A value of the written graph as the reader sees it: small numbers misread, everything else as it was. */
  function RawOf(g: P.Heap, table: seq<P.Value>, v: P.Value, depth: nat): D.Raw
    decreases depth, 0
  {
    if depth == 0 then D.RUndefined
    else if R.IsArr(g, v) then D.RArr(RawItems(g, table, g[v.id].items, depth - 1))
    else if R.IsDict(g, v) then D.RDict(RawFields(g, table, g[v.id].entries, depth - 1))
    else if R.IsData(g, v) then D.RBuf(g[v.id].bytes)
    else AtomRaw(R.Image(g, table, v))
  }

  function RawItems(g: P.Heap, table: seq<P.Value>, vs: seq<P.Value>, depth: nat): (r: seq<D.Raw>)
    ensures |r| == |vs| && forall j :: 0 <= j < |r| ==> r[j] == RawOf(g, table, vs[j], depth)
    decreases depth, 1
  {
    seq(|vs|, j requires 0 <= j < |vs| => RawOf(g, table, vs[j], depth))
  }

  function RawFields(g: P.Heap, table: seq<P.Value>, es: seq<P.Entry>, depth: nat): (r: seq<D.Field>)
    ensures |r| == |es|
    ensures forall j :: 0 <= j < |r| ==> r[j] == D.Field(FromText(es[j].key), RawOf(g, table, es[j].value, depth))
    decreases depth, 1
  {
    seq(|es|, j requires 0 <= j < |es| => D.Field(FromText(es[j].key), RawOf(g, table, es[j].value, depth)))
  }

  /** Without keys `type` the parsed graph, followed to any depth, is what `RawOf` says. */
  lemma {:induction false} ParsedIsRaw(g: P.Heap, table: seq<P.Value>, objects: map<nat, G.Content>, v: P.Value,
                                       depth: nat)
    requires T.ParsedGraph(g, table, objects) && NoTypeKeys(g) && P.ClosedHeap(g)
    requires L.ClosedFrom(g, table, 0) && v in table && P.InHeap(g, v)
    ensures RawParsed(objects, R.Image(g, table, v), depth) == RawOf(g, table, v, depth)
    decreases depth
  {
    hide RawOf, RawParsed, R.Seen, R.Image;
    if depth > 0 && R.MakesObject(g, v) {
      var i := F.IndexOf(table, v);
      assert i in objects && objects[i] == R.Contents(g, table, i);
      T.ChildrenInTable(g, table, i);
      forall x | x in L.Children(g, v)
        ensures R.Seen(g, table, i, x) == R.Image(g, table, x)
        ensures RawParsed(objects, R.Image(g, table, x), depth - 1) == RawOf(g, table, x, depth - 1)
      {
        PlainlySeen(g, table, i, x);
        ParsedIsRaw(g, table, objects, x, depth - 1);
      }
      ContainerIsRaw(g, table, objects, v, depth);
    } else {
      AtomIsRaw(g, table, objects, v, depth);
    }
  }

  lemma PlainlySeen(g: P.Heap, table: seq<P.Value>, i: nat, v: P.Value)
    requires NoTypeKeys(g)
    ensures R.Seen(g, table, i, v) == R.Image(g, table, v)
  {
    assert !R.HasTypeKey(g, v);
  }

  lemma AtomIsRaw(g: P.Heap, table: seq<P.Value>, objects: map<nat, G.Content>, v: P.Value, depth: nat)
    requires depth == 0 || !R.MakesObject(g, v)
    requires v in table && T.ParsedGraph(g, table, objects)
    ensures RawParsed(objects, R.Image(g, table, v), depth) == RawOf(g, table, v, depth)
  {
  }

  lemma ContainerIsRaw(g: P.Heap, table: seq<P.Value>, objects: map<nat, G.Content>, v: P.Value, depth: nat)
    requires depth > 0 && R.MakesObject(g, v) && v in table
    requires var i := F.IndexOf(table, v); i in objects && objects[i] == R.Contents(g, table, i)
    requires forall x :: x in L.Children(g, v) ==>
               && R.Seen(g, table, F.IndexOf(table, v), x) == R.Image(g, table, x)
               && RawParsed(objects, R.Image(g, table, x), depth - 1) == RawOf(g, table, x, depth - 1)
    ensures RawParsed(objects, R.Image(g, table, v), depth) == RawOf(g, table, v, depth)
  {
    hide FromText, R.Seen;
    var i := F.IndexOf(table, v);
    if R.IsArr(g, v) {
      var items := g[v.id].items;
      assert forall k :: 0 <= k < |items| ==> items[k] in L.Children(g, v);
      assert RawParsed(objects, G.PRef(i), depth).items == RawItems(g, table, items, depth - 1);
    } else if R.IsDict(g, v) {
      var es := g[v.id].entries;
      forall k | 0 <= k < |es|
        ensures es[k].value in L.Children(g, v)
      {
        P.DictKidsMembers(es, k);
      }
      assert RawParsed(objects, G.PRef(i), depth).entries == RawFields(g, table, es, depth - 1);
    }
  }

  /** Create, parse, follow: any document without keys `type`. */
  lemma WrittenIsRaw(g: P.Heap, top: P.Value, buf: Bytes, depth: nat)
    requires P.JsHeap(g) && P.JsValue(g, top) && NoTypeKeys(g)
    requires F.CreateBytes(g, top) == Ok(buf) && |buf| < TWO31
    ensures G.ParseBytes(buf).Ok?
    ensures RawParsed(G.ParseBytes(buf).value.objects, G.ParseBytes(buf).value.value, depth)
            == RawOf(g, F.Collect(g, [], top), top, depth)
  {
    hide F.CreateBytes, G.ParseBytes, T.ParsedGraph, RawOf, RawParsed, R.Seen, R.Image, NoTypeKeys;
    var table := F.Collect(g, [], top);
    T.RoundTrip(g, top, buf);
    L.CollectIsReachability(g, top);
    PlainlySeen(g, table, |table|, top);
    ParsedIsRaw(g, table, G.ParseBytes(buf).value.objects, top, depth);
  }
}
