/** The property list `encode` returns, as the graph of objects the binary plist creator is given. */
module NSKeyedPlistGraph {
  import opened Bytes
  import opened Wrappers
  import P = PlistGraph
  import R = BinaryPlistRoundTrip
  import N = NSKeyedEncoding
  import G = BinaryPlistReading
  import Utf8

  // ----- strings as UTF-16 -----

  function ToText(s: string): (t: Text)
    ensures |t| >= |s|
  {
    if s == "" then [] else Utf8.Units(s[0] as int) + ToText(s[1..])
  }

  function CharOf(c: Utf8.CodePoint): char {
    if Utf8.IsSurrogate(c) then '\U{FFFD}' else c as char
  }

  function FromText(t: Text): string {
    if t == [] then "" else [CharOf(Utf8.FirstPoint(t))] + FromText(t[Utf8.FirstWidth(t)..])
  }

  lemma {:induction false} TextRoundTrip(s: string)
    ensures FromText(ToText(s)) == s
  {
    if s != "" {
      FirstOfUnits(s[0] as int, ToText(s[1..]));
      TextRoundTrip(s[1..]);
    }
  }

  lemma FirstOfUnits(c: Utf8.CodePoint, rest: Text)
    requires !Utf8.IsSurrogate(c)
    ensures var t := Utf8.Units(c) + rest;
            Utf8.FirstPoint(t) == c && Utf8.FirstWidth(t) == |Utf8.Units(c)| && t[Utf8.FirstWidth(t)..] == rest
  {
    var t := Utf8.Units(c) + rest;
    assert t[0] == Utf8.Units(c)[0];
    if c >= 0x1_0000 {
      assert t[1] == Utf8.Units(c)[1];
    }
  }

  lemma SameText(a: string, b: string)
    requires ToText(a) == ToText(b)
    ensures a == b
  {
    TextRoundTrip(a);
    TextRoundTrip(b);
  }

  /** The dictionaries of an archive have no key that begins with the letter t. */
  lemma NotTypeKey(key: string)
    requires key != "" && key[0] in {'$', 'N', 'r'}
    ensures ToText(key) != G.TYPE_KEY
  {
    assert ToText(key)[0] == key[0] as int;
  }

  // ----- identities -----

  /** The UIDs an entry lists. */
  function Uids(a: N.Archived): seq<nat> {
    match a
    case List(uids, _) => uids
    case Dictionary(keys, values, _) => keys + values
    case _ => []
  }

  /** Objects of one entry: its dictionary, class UID, two arrays, a buffer, and a UID for each reference. */
  const FIXED: nat := 5

  /** Room for the objects of any entry. */
  function Width(objects: seq<N.Archived>): (w: nat)
    ensures FIXED <= w && forall i :: 0 <= i < |objects| ==> FIXED + |Uids(objects[i])| <= w
  {
    if objects == [] then FIXED
    else
      var init := objects[..|objects| - 1];
      var last, rest := FIXED + |Uids(objects[|objects| - 1])|, Width(init);
      assert forall i :: 0 <= i < |init| ==> init[i] == objects[i];
      hide Uids;
      if last > rest then last else rest
  }

  function Id(w: nat, i: nat, k: nat): nat {
    i * w + k
  }

  lemma IdParts(w: nat, i: nat, k: nat, n: nat)
    requires k < w && i < n
    ensures Id(w, i, k) < n * w && Id(w, i, k) / w == i && Id(w, i, k) % w == k
  {
    ModUnique(Id(w, i, k), w, i, k);
    MulMono(i + 1, n, w);
  }

  function Slot(w: nat, i: nat, k: nat): P.Value {
    P.Obj(Id(w, i, k))
  }

  function Slots(w: nat, i: nat, from: nat, n: nat): (r: seq<P.Value>)
    ensures |r| == n && forall j :: 0 <= j < n ==> r[j] == Slot(w, i, from + j)
  {
    seq(n, j requires 0 <= j < n => Slot(w, i, from + j))
  }

  // ----- nodes -----

  function Primitive(v: N.Value): P.Value {
    match v
    case Null => P.Null
    case Bool(b) => P.Bool(b)
    case Num(n) => P.Num(n)
    case Real(bits) => P.Real(bits)
    case Str(s) => P.Str(ToText(s))
    case Obj(_) => P.Null
  }

  /** What `$objects` holds for entry `i`. */
  function EntryValue(w: nat, i: nat, a: N.Archived): P.Value {
    match a
    case Placeholder => P.Null
    case Plain(v) => Primitive(v)
    case _ => Slot(w, i, 0)
  }

  function Field(key: string, value: P.Value): P.Entry {
    P.Entry(ToText(key), value)
  }

  function EntryFields(w: nat, i: nat, a: N.Archived): seq<P.Entry> {
    match a
    case List(_, _) => [Field("NS.objects", Slot(w, i, 2)), Field("$class", Slot(w, i, 1))]
    case Dictionary(_, _, _) =>
      [Field("NS.keys", Slot(w, i, 3)), Field("NS.objects", Slot(w, i, 2)), Field("$class", Slot(w, i, 1))]
    case DataObject(_, _) => [Field("NS.data", Slot(w, i, 4)), Field("$class", Slot(w, i, 1))]
    case Class(names) =>
      [Field("$classes", Slot(w, i, 2)), Field("$classname", P.Str(ToText(if names == [] then "" else names[0])))]
    case _ => []
  }

  function ClassOf(a: N.Archived): nat {
    match a
    case List(_, cls) => cls
    case Dictionary(_, _, cls) => cls
    case DataObject(_, cls) => cls
    case _ => 0
  }

  function Names(names: seq<string>): (r: seq<P.Value>)
    ensures |r| == |names| && forall j :: 0 <= j < |r| ==> r[j] == P.Str(ToText(names[j]))
  {
    seq(|names|, j requires 0 <= j < |names| => P.Str(ToText(names[j])))
  }

  /** The array `NS.objects` or `$classes`. */
  function FirstArray(w: nat, i: nat, a: N.Archived): seq<P.Value> {
    match a
    case List(uids, _) => Slots(w, i, FIXED, |uids|)
    case Dictionary(keys, values, _) => Slots(w, i, FIXED + |keys|, |values|)
    case Class(names) => Names(names)
    case _ => []
  }

  function EntryNode(w: nat, i: nat, a: N.Archived, k: nat): P.Node {
    if k == 0 then P.Dict(EntryFields(w, i, a))
    else if k == 1 then P.Uid(ClassOf(a))
    else if k == 2 then P.Arr(FirstArray(w, i, a))
    else if k == 3 then P.Arr(if a.Dictionary? then Slots(w, i, FIXED, |a.keys|) else [])
    else if k == 4 then P.Data(if a.DataObject? then a.bytes else [])
    else if k - FIXED < |Uids(a)| then P.Uid(Uids(a)[k - FIXED])
    else P.Arr([])
  }

  function EntryValues(w: nat, objects: seq<N.Archived>): (r: seq<P.Value>)
    ensures |r| == |objects| && forall i :: 0 <= i < |r| ==> r[i] == EntryValue(w, i, objects[i])
  {
    seq(|objects|, i requires 0 <= i < |objects| => EntryValue(w, i, objects[i]))
  }

  /** The document, its `$top` dictionary, the root UID and `$objects`. */
  function DocumentNode(w: nat, objects: seq<N.Archived>, root: nat, k: nat): P.Node {
    var n := |objects|;
    if k == 0 then
      P.Dict([Field("$version", P.Num(100000)), Field("$archiver", P.Str(ToText("NSKeyedArchiver"))),
              Field("$top", Slot(w, n, 1)), Field("$objects", Slot(w, n, 2))])
    else if k == 1 then P.Dict([Field("root", Slot(w, n, 3))])
    else if k == 2 then P.Arr(EntryValues(w, objects))
    else if k == 3 then P.Uid(root)
    else P.Arr([])
  }

  function NodeAt(w: nat, objects: seq<N.Archived>, root: nat, i: nat, k: nat): P.Node {
    if i < |objects| then EntryNode(w, i, objects[i], k) else DocumentNode(w, objects, root, k)
  }

  function NodeOfId(w: nat, objects: seq<N.Archived>, root: nat, id: nat): P.Node
    requires w > 0
  {
    NodeAt(w, objects, root, id / w, id % w)
  }

  function GraphOf(objects: seq<N.Archived>, root: nat): P.Heap {
    var w := Width(objects);
    map id: nat | 0 <= id < (|objects| + 1) * w :: NodeOfId(w, objects, root, id)
  }

  function DocumentOf(objects: seq<N.Archived>): P.Value {
    Slot(Width(objects), |objects|, 0)
  }

  lemma NodeOf(objects: seq<N.Archived>, root: nat, i: nat, k: nat)
    requires i <= |objects| && k < Width(objects)
    ensures var w, g := Width(objects), GraphOf(objects, root);
            Id(w, i, k) in g && g[Id(w, i, k)] == NodeAt(w, objects, root, i, k)
  {
    hide NodeAt, Width;
    IdParts(Width(objects), i, k, |objects| + 1);
  }

  lemma PartsOf(objects: seq<N.Archived>, root: nat, id: nat) returns (i: nat, k: nat)
    requires id in GraphOf(objects, root)
    ensures i <= |objects| && k < Width(objects) && id == Id(Width(objects), i, k)
    ensures GraphOf(objects, root)[id] == NodeAt(Width(objects), objects, root, i, k)
  {
    hide NodeAt, Width;
    var w := Width(objects);
    i, k := id / w, id % w;
    assert id == i * w + k;
    if i > |objects| {
      MulMono(|objects| + 1, i, w);
    }
  }

  // ----- it is a value graph JavaScript can build -----

  /** A reference to one of the slots, or a primitive JavaScript has. */
  predicate Sound(w: nat, n: nat, v: P.Value) {
    && (v.Obj? ==> exists i: nat, k: nat :: i <= n && k < w && v == Slot(w, i, k))
    && (v.Real? ==> |v.bits| == 8)
    && (v.Num? ==> P.ExactDouble(v.n))
  }

  lemma {:induction false} DictKidsSound(w: nat, n: nat, es: seq<P.Entry>)
    requires forall j :: 0 <= j < |es| ==> Sound(w, n, es[j].value)
    ensures forall v :: v in P.DictKids(es) ==> Sound(w, n, v)
  {
    hide Sound;
    if es != [] {
      DictKidsSound(w, n, es[1..]);
      TextSound(w, n, es[0].key);
    }
  }

  lemma TextSound(w: nat, n: nat, t: Text)
    ensures Sound(w, n, P.Str(t))
  {
  }

  lemma SlotSound(w: nat, n: nat, i: nat, k: nat)
    requires i <= n && k < w
    ensures Sound(w, n, Slot(w, i, k))
  {
  }

  lemma PrimitiveSound(w: nat, n: nat, v: N.Value)
    ensures Sound(w, n, Primitive(v))
  {
  }

  lemma EntryFieldsSound(w: nat, n: nat, i: nat, a: N.Archived)
    requires i <= n && FIXED <= w
    ensures var es := EntryFields(w, i, a); forall j :: 0 <= j < |es| ==> Sound(w, n, es[j].value)
  {
    hide Sound, ToText, Slot;
    SlotSound(w, n, i, 1);
    SlotSound(w, n, i, 2);
    SlotSound(w, n, i, 3);
    SlotSound(w, n, i, 4);
    if a.Class? {
      TextSound(w, n, ToText(if a.names == [] then "" else a.names[0]));
    }
  }

  lemma SlotsSound(w: nat, n: nat, i: nat, from: nat, count: nat)
    requires i <= n && from + count <= w
    ensures forall v :: v in Slots(w, i, from, count) ==> Sound(w, n, v)
  {
    hide Sound;
    forall j | 0 <= j < count
      ensures Sound(w, n, Slots(w, i, from, count)[j])
    {
      SlotSound(w, n, i, from + j);
    }
  }

  lemma EntryNodeSound(w: nat, n: nat, i: nat, a: N.Archived, k: nat)
    requires i <= n && FIXED + |Uids(a)| <= w
    ensures forall v :: v in P.Kids(EntryNode(w, i, a, k)) ==> Sound(w, n, v)
  {
    hide Sound, EntryFields;
    EntryFieldsSound(w, n, i, a);
    DictKidsSound(w, n, EntryFields(w, i, a));
    match a
    case List(uids, _) => SlotsSound(w, n, i, FIXED, |uids|);
    case Dictionary(keys, values, _) =>
      SlotsSound(w, n, i, FIXED, |keys|);
      SlotsSound(w, n, i, FIXED + |keys|, |values|);
    case Class(names) =>
      forall j | 0 <= j < |names|
        ensures Sound(w, n, Names(names)[j])
      {
        TextSound(w, n, ToText(names[j]));
      }
    case _ =>
  }

  lemma DocumentSound(objects: seq<N.Archived>, root: nat, k: nat)
    ensures var w := Width(objects);
            forall v :: v in P.Kids(DocumentNode(w, objects, root, k)) ==> Sound(w, |objects|, v)
  {
    hide Sound, Width, ToText, Slot;
    var w, n := Width(objects), |objects|;
    if k <= 1 {
      SlotSound(w, n, n, 1);
      SlotSound(w, n, n, 2);
      SlotSound(w, n, n, 3);
      TextSound(w, n, ToText("NSKeyedArchiver"));
      VersionSound(w, n);
      DictKidsSound(w, n, DocumentNode(w, objects, root, k).entries);
    } else if k == 2 {
      EntryValuesSound(w, n, objects);
    }
  }

  lemma EntryValuesSound(w: nat, n: nat, objects: seq<N.Archived>)
    requires n == |objects| && FIXED <= w
    ensures forall v :: v in EntryValues(w, objects) ==> Sound(w, n, v)
  {
    hide Sound;
    forall i | 0 <= i < n
      ensures Sound(w, n, EntryValue(w, i, objects[i]))
    {
      SlotSound(w, n, i, 0);
      NullSound(w, n);
      if objects[i].Plain? {
        PrimitiveSound(w, n, objects[i].v);
      }
    }
  }

  lemma VersionSound(w: nat, n: nat)
    ensures Sound(w, n, P.Num(100000))
  {
  }

  lemma NullSound(w: nat, n: nat)
    ensures Sound(w, n, P.Null)
  {
  }

  lemma EntryKeysDistinct(w: nat, i: nat, a: N.Archived)
    ensures P.DistinctKeys(EntryFields(w, i, a))
  {
    hide ToText;
    KeysApart("NS.objects", "$class");
    KeysApart("NS.keys", "$class");
    KeysApart("NS.keys", "NS.objects");
    KeysApart("NS.data", "$class");
    KeysApart("$classes", "$classname");
  }

  lemma KeysApart(a: string, b: string)
    requires a != b
    ensures ToText(a) != ToText(b)
  {
    hide ToText;
    if ToText(a) == ToText(b) {
      SameText(a, b);
    }
  }

  lemma DocumentKeysDistinct(w: nat, objects: seq<N.Archived>, root: nat, k: nat)
    requires k <= 1
    ensures P.DistinctKeys(DocumentNode(w, objects, root, k).entries)
  {
    hide ToText;
    assert "$version"[1] != "$objects"[1];
    KeysApart("$version", "$archiver");
    KeysApart("$version", "$top");
    KeysApart("$version", "$objects");
    KeysApart("$archiver", "$top");
    KeysApart("$archiver", "$objects");
    KeysApart("$top", "$objects");
  }

  lemma SoundIsJs(objects: seq<N.Archived>, root: nat, v: P.Value)
    requires Sound(Width(objects), |objects|, v)
    ensures P.JsValue(GraphOf(objects, root), v)
  {
    hide Width, GraphOf;
    if v.Obj? {
      var i: nat, k: nat :| i <= |objects| && k < Width(objects) && v == Slot(Width(objects), i, k);
      NodeOf(objects, root, i, k);
    }
  }

  /** The graph of an archive is one JavaScript can build. */
  lemma GraphIsJs(objects: seq<N.Archived>, root: nat)
    ensures P.JsHeap(GraphOf(objects, root)) && P.JsValue(GraphOf(objects, root), DocumentOf(objects))
  {
    hide Width, GraphOf, P.Kids, EntryNode, DocumentNode, Sound, P.DistinctKeys, P.JsValue;
    var g, w, n := GraphOf(objects, root), Width(objects), |objects|;
    forall id | id in g
      ensures forall v :: v in P.Kids(g[id]) ==> P.JsValue(g, v)
      ensures g[id].Dict? ==> P.DistinctKeys(g[id].entries)
    {
      var i, k := PartsOf(objects, root, id);
      NodeKeysDistinct(objects, root, i, k);
      NodeSound(objects, root, i, k);
      forall v | v in P.Kids(g[id])
        ensures P.JsValue(g, v)
      {
        SoundIsJs(objects, root, v);
      }
    }
    JsIsClosed(g);
    SlotSound(w, n, n, 0);
    SoundIsJs(objects, root, DocumentOf(objects));
  }

  lemma JsIsClosed(g: P.Heap)
    requires forall id :: id in g ==> forall v :: v in P.Kids(g[id]) ==> P.JsValue(g, v)
    ensures P.ClosedHeap(g)
  {
  }

  lemma NodeKeysDistinct(objects: seq<N.Archived>, root: nat, i: nat, k: nat)
    requires i <= |objects|
    ensures var node := NodeAt(Width(objects), objects, root, i, k); node.Dict? ==> P.DistinctKeys(node.entries)
  {
    hide Width, EntryFields, P.DistinctKeys;
    var w := Width(objects);
    if i < |objects| {
      EntryKeysDistinct(w, i, objects[i]);
    } else if k <= 1 {
      DocumentKeysDistinct(w, objects, root, k);
    }
  }

  lemma NodeSound(objects: seq<N.Archived>, root: nat, i: nat, k: nat)
    requires i <= |objects|
    ensures var w := Width(objects);
            forall v :: v in P.Kids(NodeAt(w, objects, root, i, k)) ==> Sound(w, |objects|, v)
  {
    hide Width, EntryNode, DocumentNode, Sound, P.Kids;
    if i < |objects| {
      EntryNodeSound(Width(objects), |objects|, i, objects[i], k);
    } else {
      DocumentSound(objects, root, k);
    }
  }

  // ----- nothing in it is taken for a temporary object -----

  ghost predicate NoTypeKeys(g: P.Heap) {
    forall v: P.Value :: !R.HasTypeKey(g, v)
  }

  lemma {:induction false} NoEntryFor(es: seq<P.Entry>, key: Text)
    requires forall j :: 0 <= j < |es| ==> es[j].key != key
    ensures R.EntryFor(es, key) == None
  {
    if es != [] {
      NoEntryFor(es[1..], key);
    }
  }

  lemma EntryHasNoTypeKey(w: nat, i: nat, a: N.Archived)
    ensures R.EntryFor(EntryFields(w, i, a), G.TYPE_KEY) == None
  {
    hide ToText, R.EntryFor, Slot;
    if a.List? || a.Dictionary? || a.DataObject? {
      NotTypeKey("NS.objects");
      NotTypeKey("NS.keys");
      NotTypeKey("NS.data");
      NotTypeKey("$class");
    } else if a.Class? {
      NotTypeKey("$classes");
      NotTypeKey("$classname");
    }
    NoEntryFor(EntryFields(w, i, a), G.TYPE_KEY);
  }

  lemma DocumentHasNoTypeKey(w: nat, objects: seq<N.Archived>, root: nat, k: nat)
    requires k <= 1
    ensures R.EntryFor(DocumentNode(w, objects, root, k).entries, G.TYPE_KEY) == None
  {
    hide ToText, R.EntryFor, Slot;
    if k == 0 {
      NotTypeKey("$version");
      NotTypeKey("$archiver");
      NotTypeKey("$top");
      NotTypeKey("$objects");
    } else {
      NotTypeKey("root");
    }
    NoEntryFor(DocumentNode(w, objects, root, k).entries, G.TYPE_KEY);
  }

  lemma NodeHasNoTypeKey(objects: seq<N.Archived>, root: nat, i: nat, k: nat)
    requires i <= |objects|
    ensures var node := NodeAt(Width(objects), objects, root, i, k);
            node.Dict? ==> R.EntryFor(node.entries, G.TYPE_KEY) == None
  {
    hide Width, R.EntryFor, EntryFields;
    if i < |objects| {
      EntryHasNoTypeKey(Width(objects), i, objects[i]);
    } else if k <= 1 {
      DocumentHasNoTypeKey(Width(objects), objects, root, k);
    }
  }

  lemma GraphHasNoTypeKeys(objects: seq<N.Archived>, root: nat)
    ensures NoTypeKeys(GraphOf(objects, root))
  {
    hide Width, GraphOf, NodeAt, R.EntryFor;
    var g := GraphOf(objects, root);
    forall v: P.Value
      ensures !R.HasTypeKey(g, v)
    {
      if v.Obj? && v.id in g {
        var i, k := PartsOf(objects, root, v.id);
        NodeHasNoTypeKey(objects, root, i, k);
      }
    }
  }
}
