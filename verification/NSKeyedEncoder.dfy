/**
 * The NSKeyedArchiver encoder: JavaScript values are archived into a growing object table.  Containers
 * get a placeholder first, so that shared and cyclic references find their index in the cache.
 */
module NSKeyedEncoding {
  import opened Bytes
  import opened Wrappers
  import PlistGraph

  /** An integer a JavaScript number can be. */
  type Integer = n: int | PlistGraph.ExactDouble(n)

  /** The 8 bytes of a number that is not an integer. */
  type DoubleBits = b: Bytes | |b| == 8 witness [0, 0, 0, 0, 0, 0, 0, 0]

  datatype Value =
    | Null                    // null and undefined
    | Bool(b: bool)
    | Num(n: Integer)
    | Real(bits: DoubleBits)
    | Str(s: string)
    | Obj(id: nat)

  datatype Entry = Entry(key: string, value: Value)

  datatype Node =
    | ArrayNode(items: seq<Value>)
    | SetNode(items: seq<Value>)
    | DictNode(entries: seq<Entry>)
    | BufferNode(bytes: Bytes)

  type Heap = map<nat, Node>

  /** Entries of the `$objects` table; numbers in `uids`, `keys`, `values` and `cls` are UIDs. */
  datatype Archived =
    | Placeholder
    | Plain(v: Value)
    | List(uids: seq<nat>, cls: nat)
    | Dictionary(keys: seq<nat>, values: seq<nat>, cls: nat)
    | DataObject(bytes: Bytes, cls: nat)
    | Class(names: seq<string>)

  datatype State = State(objects: seq<Archived>, cache: map<nat, nat>, classes: map<string, nat>)
  datatype One = One(index: nat, st: State)
  datatype Many = Many(indices: seq<nat>, st: State)

  function Keys(es: seq<Entry>): (r: seq<Value>)
    ensures |r| == |es|
  {
    seq(|es|, i requires 0 <= i < |es| => Str(es[i].key))
  }

  function Values(es: seq<Entry>): (r: seq<Value>)
    ensures |r| == |es|
  {
    seq(|es|, i requires 0 <= i < |es| => es[i].value)
  }

  function Kids(n: Node): seq<Value> {
    match n
    case ArrayNode(items) => items
    case SetNode(items) => items
    case DictNode(es) => Keys(es) + Values(es)
    case BufferNode(_) => []
  }

  predicate InHeap(h: Heap, v: Value) {
    v.Obj? ==> v.id in h
  }

  predicate ClosedHeap(h: Heap) {
    forall id, v :: id in h && v in Kids(h[id]) ==> InHeap(h, v)
  }

  predicate AllInHeap(h: Heap, vs: seq<Value>) {
    forall v :: v in vs ==> InHeap(h, v)
  }

  /** Objects not archived yet. */
  function Uncached(h: Heap, st: State): set<nat> {
    set id | id in h.Keys && id !in st.cache
  }

  const START := State([Plain(Str("$null"))], map[], map[])

  function GetClassUid(st: State, names: seq<string>): One
    requires names != []
  {
    if names[0] in st.classes then One(st.classes[names[0]], st)
    else
      var index := |st.objects|;
      One(index, State(st.objects + [Class(names)], st.cache, st.classes[names[0] := index]))
  }

  const NS_ARRAY := ["NSArray", "NSObject"]
  const NS_SET := ["NSSet", "NSObject"]
  const NS_DICTIONARY := ["NSDictionary", "NSObject"]
  const NS_DATA := ["NSMutableData", "NSData", "NSObject"]

  /** Reserve the next index for object `id`. */
  function Reserve(st: State, id: nat): State {
    State(st.objects + [Placeholder], st.cache[id := |st.objects|], st.classes)
  }

  function Store(st: State, index: nat, a: Archived): State
    requires index < |st.objects|
  {
    st.(objects := st.objects[index := a])
  }

  function Archive(h: Heap, st: State, v: Value): (r: One)
    requires ClosedHeap(h) && InHeap(h, v)
    ensures |st.objects| <= |r.st.objects| && st.cache.Keys <= r.st.cache.Keys
    decreases Uncached(h, st), 0
  {
    match v
    case Null => One(0, st)
    case Obj(id) =>
      if id in st.cache then One(st.cache[id], st)
      else
        assert id in Uncached(h, st) && id !in Uncached(h, Reserve(st, id));
        ArchiveNode(h, st, id)
    case _ => One(|st.objects|, st.(objects := st.objects + [Plain(v)]))
  }

  function ArchiveNode(h: Heap, st: State, id: nat): (r: One)
    requires ClosedHeap(h) && id in h && id !in st.cache
    ensures |st.objects| <= |r.st.objects| && st.cache.Keys <= r.st.cache.Keys
    decreases Uncached(h, Reserve(st, id)), |Kids(h[id])| + 2
  {
    var index := |st.objects|;
    match h[id]
    case BufferNode(bytes) =>
      var c := GetClassUid(Reserve(st, id), NS_DATA);
      One(index, Store(c.st, index, DataObject(bytes, c.index)))
    case ArrayNode(items) =>
      var m := ArchiveAll(h, Reserve(st, id), items);
      var c := GetClassUid(m.st, NS_ARRAY);
      One(index, Store(c.st, index, List(m.indices, c.index)))
    case SetNode(items) =>
      var m := ArchiveAll(h, Reserve(st, id), items);
      var c := GetClassUid(m.st, NS_SET);
      One(index, Store(c.st, index, List(m.indices, c.index)))
    case DictNode(es) =>
      DictKids(h, id);
      var ks := ArchiveAll(h, Reserve(st, id), Keys(es));
      assert Uncached(h, ks.st) <= Uncached(h, Reserve(st, id));
      var vs := ArchiveAll(h, ks.st, Values(es));
      var c := GetClassUid(vs.st, NS_DICTIONARY);
      One(index, Store(c.st, index, Dictionary(ks.indices, vs.indices, c.index)))
  }

  function ArchiveAll(h: Heap, st: State, vs: seq<Value>): (r: Many)
    requires ClosedHeap(h) && AllInHeap(h, vs)
    ensures |r.indices| == |vs|
    ensures |st.objects| <= |r.st.objects| && st.cache.Keys <= r.st.cache.Keys
    decreases Uncached(h, st), |vs| + 1
  {
    if vs == [] then Many([], st)
    else
      var init := ArchiveAll(h, st, vs[..|vs| - 1]);
      assert vs[|vs| - 1] in vs;
      assert Uncached(h, init.st) <= Uncached(h, st);
      var last := Archive(h, init.st, vs[|vs| - 1]);
      Many(init.indices + [last.index], last.st)
  }

  lemma DictKids(h: Heap, id: nat)
    requires ClosedHeap(h) && id in h && h[id].DictNode?
    ensures AllInHeap(h, Keys(h[id].entries)) && AllInHeap(h, Values(h[id].entries))
  {
    forall v | v in Values(h[id].entries)
      ensures InHeap(h, v)
    {
      assert v in Kids(h[id]);
    }
  }
}

module NSKeyedArchiverEncoder {
  import opened Bytes
  import opened Wrappers
  import opened NSKeyedEncoding

  class NSKeyedArchiverEncoder {
    var objects: seq<Archived>
    var objectCache: map<nat, nat>
    var classes: map<string, nat>
    const heap: Heap

    ghost function Current(): State
      reads this
    {
      State(objects, objectCache, classes)
    }

    constructor (h: Heap)
      ensures heap == h && Current() == START
    {
      heap := h;
      objects := [Plain(Str("$null"))];
      objectCache, classes := map[], map[];
    }

    method GetClassUid(names: seq<string>) returns (index: nat)
      requires names != []
      modifies this
      ensures One(index, Current()) == NSKeyedEncoding.GetClassUid(old(Current()), names)
    {
      if names[0] in classes {
        return classes[names[0]];
      }
      index := |objects|;
      objects := objects + [Class(names)];
      classes := classes[names[0] := index];
    }

    method ArchiveObject(value: Value) returns (index: nat)
      requires ClosedHeap(heap) && InHeap(heap, value)
      modifies this
      ensures One(index, Current()) == old(Archive(heap, Current(), value))
      decreases Uncached(heap, Current()), 0
    {
      if value.Null? {
        return 0;
      }
      if !value.Obj? {
        index := |objects|;
        objects := objects + [Plain(value)];
        return;
      }
      if value.id in objectCache {
        return objectCache[value.id];
      }
      assert value.id in Uncached(heap, Current()) && value.id !in Uncached(heap, Reserve(Current(), value.id));
      match heap[value.id]
      case BufferNode(bytes) => index := ArchiveBuffer(value.id, bytes);
      case ArrayNode(items) => index := ArchiveList(value.id, items, NS_ARRAY);
      case SetNode(items) => index := ArchiveList(value.id, items, NS_SET);
      case DictNode(entries) => index := ArchiveDictionary(value.id, entries);
    }

    method ReservePlace(id: nat) returns (index: nat)
      modifies this
      ensures index == |old(objects)| && Current() == Reserve(old(Current()), id)
    {
      index := |objects|;
      objects := objects + [Placeholder];
      objectCache := objectCache[id := index];
    }

    method ArchiveBuffer(id: nat, bytes: Bytes) returns (index: nat)
      requires ClosedHeap(heap) && id in heap && heap[id] == BufferNode(bytes) && id !in objectCache
      modifies this
      ensures One(index, Current()) == old(ArchiveNode(heap, Current(), id))
    {
      index := ReservePlace(id);
      var classUid := GetClassUid(NS_DATA);
      objects := objects[index := DataObject(bytes, classUid)];
    }

    /** The source's `archiveArray` and `archiveSet`, which differ in the class only. */
    method ArchiveList(id: nat, items: seq<Value>, names: seq<string>) returns (index: nat)
      requires ClosedHeap(heap) && id in heap && id !in objectCache
      requires (heap[id] == ArrayNode(items) && names == NS_ARRAY) || (heap[id] == SetNode(items) && names == NS_SET)
      modifies this
      ensures One(index, Current()) == old(ArchiveNode(heap, Current(), id))
      decreases Uncached(heap, Reserve(Current(), id)), 2
    {
      index := ReservePlace(id);
      var itemUids := ArchiveEach(items);
      var classUid := GetClassUid(names);
      objects := objects[index := List(itemUids, classUid)];
    }

    method ArchiveDictionary(id: nat, entries: seq<Entry>) returns (index: nat)
      requires ClosedHeap(heap) && id in heap && id !in objectCache && heap[id] == DictNode(entries)
      modifies this
      ensures One(index, Current()) == old(ArchiveNode(heap, Current(), id))
      decreases Uncached(heap, Reserve(Current(), id)), 2
    {
      DictKids(heap, id);
      index := ReservePlace(id);
      var keyUids := ArchiveEach(Keys(entries));
      assert Uncached(heap, Current()) <= Uncached(heap, Reserve(old(Current()), id));
      var valUids := ArchiveEach(Values(entries));
      var classUid := GetClassUid(NS_DICTIONARY);
      objects := objects[index := Dictionary(keyUids, valUids, classUid)];
    }

    /** `values.map(v => new PlistUID(this.archiveObject(v)))`. */
    method ArchiveEach(values: seq<Value>) returns (uids: seq<nat>)
      requires ClosedHeap(heap) && AllInHeap(heap, values)
      modifies this
      ensures Many(uids, Current()) == old(ArchiveAll(heap, Current(), values))
      decreases Uncached(heap, Current()), 1
    {
      uids := [];
      for i := 0 to |values|
        invariant AllInHeap(heap, values[..i])
        invariant Many(uids, Current()) == old(ArchiveAll(heap, Current(), values[..i]))
      {
        assert values[..i + 1][..i] == values[..i];
        assert Uncached(heap, Current()) <= old(Uncached(heap, Current()));
        var uid := ArchiveObject(values[i]);
        uids := uids + [uid];
      }
      assert values[..|values|] == values;
    }

    /** Returns the root UID; the archive's `$objects` is the object table left behind. */
    method Encode(root: Value) returns (rootIndex: nat)
      requires ClosedHeap(heap) && InHeap(heap, root) && Current() == START
      modifies this
      ensures One(rootIndex, Current()) == Archive(heap, START, root)
    {
      rootIndex := ArchiveObject(root);
    }
  }
}
