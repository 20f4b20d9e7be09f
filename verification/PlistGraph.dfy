/**
 * JavaScript values as the binary plist code sees them: primitives, and references into a
 * heap of objects.  References make sharing and cycles visible, and they are what the
 * identity map of the creator is keyed by.
 */
module PlistGraph {
  import opened Bytes

  datatype Value =
    | Null
    | Bool(b: bool)
    | Num(n: int)       // a JavaScript number that is an integer
    | Big(n: int)       // a bigint
    | Real(bits: Bytes) // any other number, as its 8 bytes
    | Str(s: Text)
    | Obj(id: nat)

  datatype Entry = Entry(key: Text, value: Value)

  /** Objects with identity.  A dictionary lists its entries in `Object.keys` order. */
  datatype Node =
    | Arr(items: seq<Value>)
    | Dict(entries: seq<Entry>)
    | Data(bytes: Bytes)
    | Uid(uid: int)

  type Heap = map<nat, Node>

  function DictKids(es: seq<Entry>): seq<Value> {
    if es == [] then [] else [Str(es[0].key), es[0].value] + DictKids(es[1..])
  }

  /** What the collection recurses into, in its order. */
  function Kids(n: Node): seq<Value> {
    match n
    case Arr(items) => items
    case Dict(entries) => DictKids(entries)
    case Data(_) => []
    case Uid(_) => []
  }

  predicate InHeap(h: Heap, v: Value) {
    v.Obj? ==> v.id in h
  }

  predicate ClosedHeap(h: Heap) {
    forall id, v :: id in h && v in Kids(h[id]) ==> InHeap(h, v)
  }

  predicate DistinctKeys(es: seq<Entry>) {
    forall i, j :: 0 <= i < j < |es| ==> es[i].key != es[j].key
  }

  /** Numbers that survive `Number(n)` unchanged: 53 significant bits. */
  predicate ExactDouble(n: int)
    decreases if n < 0 then -n else n
  {
    -(MAX_SAFE_INTEGER + 1) <= n <= MAX_SAFE_INTEGER + 1 || (n % 2 == 0 && ExactDouble(n / 2))
  }

  /** What JavaScript guarantees of any value graph. */
  predicate JsHeap(h: Heap) {
    && ClosedHeap(h)
    && (forall id :: id in h && h[id].Dict? ==> DistinctKeys(h[id].entries))
    && (forall id, v :: id in h && v in Kids(h[id]) ==> JsValue(h, v))
  }

  predicate JsValue(h: Heap, v: Value) {
    && InHeap(h, v)
    && (v.Real? ==> |v.bits| == 8)
    && (v.Num? ==> ExactDouble(v.n))
  }

  lemma {:induction false} DictKidsAt(es: seq<Entry>, i: nat)
    requires i < |es|
    ensures |DictKids(es)| == 2 * |es|
    ensures DictKids(es)[2 * i] == Str(es[i].key)
    ensures DictKids(es)[2 * i + 1] == es[i].value
  {
    var rest := DictKids(es[1..]);
    if i > 0 {
      DictKidsAt(es[1..], i - 1);
      assert DictKids(es)[2 * i] == rest[2 * (i - 1)];
      assert DictKids(es)[2 * i + 1] == rest[2 * (i - 1) + 1];
    } else if |es| > 1 {
      DictKidsAt(es[1..], 0);
    }
  }

  lemma DictKidsMembers(es: seq<Entry>, i: nat)
    requires i < |es|
    ensures Str(es[i].key) in DictKids(es) && es[i].value in DictKids(es)
  {
    DictKidsAt(es, i);
  }
}
