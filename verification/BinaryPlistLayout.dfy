/** What the creator's object table and byte layout guarantee. */
module BinaryPlistLayout {
  import opened Bytes
  import opened Wrappers
  import opened PlistGraph
  import opened BinaryPlistFormat
  import opened BinaryPlistCreator

  // ----- the object table -----

  predicate Distinct(table: seq<Value>) {
    forall i, j :: 0 <= i < j < |table| ==> table[i] != table[j]
  }

  function Children(h: Heap, v: Value): seq<Value> {
    if v.Obj? && v.id in h then Kids(h[v.id]) else []
  }

  /** The values referenced by entries `from` onwards are in the table. */
  predicate ClosedFrom(h: Heap, table: seq<Value>, from: nat) {
    forall i, k :: from <= i < |table| && k in Children(h, table[i]) ==> k in table
  }

  predicate IsPath(h: Heap, p: seq<Value>) {
    |p| > 0 && forall i :: 0 <= i < |p| - 1 ==> p[i + 1] in Children(h, p[i])
  }

  ghost predicate Reachable(h: Heap, from: Value, to: Value) {
    exists p :: IsPath(h, p) && p[0] == from && p[|p| - 1] == to
  }

  lemma {:induction false} CollectFacts(h: Heap, table: seq<Value>, v: Value)
    requires ClosedHeap(h) && InHeap(h, v) && Distinct(table)
    ensures var r := Collect(h, table, v);
            Distinct(r) && v in r && ClosedFrom(h, r, |table|)
    decreases Unvisited(h, table), 0
  {
    if v !in table && v.Obj? {
      assert v.id in Unvisited(h, table) && v.id !in Unvisited(h, table + [v]);
      CollectAllFacts(h, table + [v], Kids(h[v.id]));
      assert (table + [v])[|table|] == v;
    }
  }

  lemma {:induction false} CollectAllFacts(h: Heap, table: seq<Value>, vs: seq<Value>)
    requires ClosedHeap(h) && (forall v :: v in vs ==> InHeap(h, v)) && Distinct(table)
    ensures var r := CollectAll(h, table, vs);
            Distinct(r) && (forall v :: v in vs ==> v in r) && ClosedFrom(h, r, |table|)
    decreases Unvisited(h, table), |vs|
  {
    if vs != [] {
      var t := Collect(h, table, vs[0]);
      CollectFacts(h, table, vs[0]);
      assert Unvisited(h, t) <= Unvisited(h, table);
      CollectAllFacts(h, t, vs[1..]);
      var r := CollectAll(h, table, vs);
      assert t <= r;
      forall v | v in vs
        ensures v in r
      {
        assert v == vs[0] || v in vs[1..];
      }
      forall i, k | |table| <= i < |r| && k in Children(h, r[i])
        ensures k in r
      {
        if i < |t| {
          assert r[i] == t[i] && k in t;
        }
      }
    }
  }

  lemma {:induction false} CollectReaches(h: Heap, table: seq<Value>, v: Value, x: Value)
    requires ClosedHeap(h) && InHeap(h, v) && x in Collect(h, table, v) && x !in table
    ensures Reachable(h, v, x)
    decreases Unvisited(h, table), 0
  {
    if x == v {
      assert IsPath(h, [v]);
    } else {
      assert v.id in Unvisited(h, table) && v.id !in Unvisited(h, table + [v]);
      var k := CollectAllReaches(h, table + [v], Kids(h[v.id]), x);
      ReachThrough(h, v, k, x);
    }
  }

  lemma ReachThrough(h: Heap, v: Value, k: Value, x: Value)
    requires k in Children(h, v) && Reachable(h, k, x)
    ensures Reachable(h, v, x)
  {
    var p :| IsPath(h, p) && p[0] == k && p[|p| - 1] == x;
    assert IsPath(h, [v] + p);
  }

  lemma {:induction false} CollectAllReaches(h: Heap, table: seq<Value>, vs: seq<Value>, x: Value) returns (k: Value)
    requires ClosedHeap(h) && forall v :: v in vs ==> InHeap(h, v)
    requires x in CollectAll(h, table, vs) && x !in table
    ensures k in vs && Reachable(h, k, x)
    decreases Unvisited(h, table), |vs|
  {
    var t := Collect(h, table, vs[0]);
    if x in t {
      CollectReaches(h, table, vs[0], x);
      k := vs[0];
    } else {
      assert Unvisited(h, t) <= Unvisited(h, table);
      k := CollectAllReaches(h, t, vs[1..], x);
    }
  }

  lemma {:induction false} PathStaysInside(h: Heap, table: seq<Value>, p: seq<Value>)
    requires ClosedFrom(h, table, 0) && IsPath(h, p) && p[0] in table
    ensures p[|p| - 1] in table
    decreases |p|
  {
    if |p| > 1 {
      assert p[1] in Children(h, p[0]);
      assert IsPath(h, p[1..]) by {
        forall i | 0 <= i < |p[1..]| - 1
          ensures p[1..][i + 1] in Children(h, p[1..][i])
        {
          assert p[i + 2] in Children(h, p[i + 1]);
        }
      }
      PathStaysInside(h, table, p[1..]);
    }
  }

  /** The object table lists exactly the values reachable from the root, each once, root first. */
  lemma CollectIsReachability(h: Heap, root: Value)
    requires ClosedHeap(h) && InHeap(h, root)
    ensures var table := Collect(h, [], root);
            && Distinct(table) && |table| > 0 && table[0] == root
            && ClosedFrom(h, table, 0)
            && forall v :: v in table <==> Reachable(h, root, v)
  {
    var table := Collect(h, [], root);
    CollectFacts(h, [], root);
    RootFirst(h, root);
    forall v
      ensures v in table <==> Reachable(h, root, v)
    {
      if v in table {
        CollectReaches(h, [], root, v);
      }
      if Reachable(h, root, v) {
        var p :| IsPath(h, p) && p[0] == root && p[|p| - 1] == v;
        PathStaysInside(h, table, p);
      }
    }
  }

  lemma RootFirst(h: Heap, root: Value)
    requires ClosedHeap(h) && InHeap(h, root)
    ensures |Collect(h, [], root)| > 0 && Collect(h, [], root)[0] == root
  {
    if root.Obj? {
      assert ([] + [root])[0] == root;
      assert [] + [root] <= Collect(h, [], root);
    }
  }

  lemma IndexOfAt(table: seq<Value>, i: nat)
    requires Distinct(table) && i < |table|
    ensures IndexOf(table, table[i]) == i
  {
  }

  // ----- fixed-width numbers -----

  lemma {:induction false} EncodeNumsOk(ns: seq<nat>, w: nat)
    ensures EncodeNums(ns, w).Ok? <==> forall i :: 0 <= i < |ns| ==> ns[i] < Pow256(w)
  {
    if ns != [] {
      EncodeNumsOk(ns[..|ns| - 1], w);
      assert forall i :: 0 <= i < |ns| - 1 ==> ns[i] == ns[..|ns| - 1][i];
    }
  }

  /** Number `k` occupies its own `w` bytes. */
  lemma {:induction false} EncodeNumsAt(ns: seq<nat>, w: nat, k: nat)
    requires EncodeNums(ns, w).Ok? && k < |ns|
    ensures ns[k] < Pow256(w)
    ensures 0 <= k * w <= k * w + w <= |ns| * w
    ensures EncodeNums(ns, w).value[k * w..k * w + w] == BE(ns[k], w)
    decreases |ns|
  {
    var n := |ns| - 1;
    assert |ns| * w == n * w + w;
    var init := EncodeNums(ns[..n], w).value;
    if k < n {
      EncodeNumsAt(ns[..n], w, k);
      assert EncodeNums(ns, w).value[k * w..k * w + w] == init[k * w..k * w + w];
    }
  }

  lemma MinByteSizeFits(n: nat)
    requires n < TWO64
    ensures n < Pow256(MinByteSize(n))
  {
    Pow256Values();
  }

  /** Every reference of a collected table fits the reference width. */
  lemma RefsFit(h: Heap, root: Value, vs: seq<Value>)
    requires ClosedHeap(h) && InHeap(h, root)
    requires |Collect(h, [], root)| <= TWO64
    ensures var table := Collect(h, [], root);
            EncodeNums(Refs(table, vs), RefSize(table)).Ok?
  {
    var table := Collect(h, [], root);
    RootFirst(h, root);
    MinByteSizeFits(|table| - 1);
    forall i | 0 <= i < |vs|
      ensures Refs(table, vs)[i] < Pow256(RefSize(table))
    {
      IndexOfAbsent(table, vs[i]);
    }
    EncodeNumsOk(Refs(table, vs), RefSize(table));
  }

  // ----- positions -----

  /** Table entry `i` is the byte position of object `i`'s encoding. */
  lemma {:induction false} FlattenAt(parts: seq<Bytes>, i: nat)
    requires i < |parts|
    ensures |MAGIC| <= Offsets(parts)[i] <= Offsets(parts)[i] + |parts[i]| <= |MAGIC| + |Flatten(parts)|
    ensures var start := Offsets(parts)[i] - |MAGIC|;
            Flatten(parts)[start..start + |parts[i]|] == parts[i]
    decreases |parts|
  {
    var n := |parts| - 1;
    if i < n {
      FlattenAt(parts[..n], i);
      var start := Offsets(parts)[i] - |MAGIC|;
      assert Flatten(parts)[start..start + |parts[i]|] == Flatten(parts[..n])[start..start + |parts[i]|];
    }
  }

  lemma {:induction false} OffsetsMono(parts: seq<Bytes>, i: nat)
    requires i < |parts|
    ensures Offsets(parts)[i] <= Offsets(parts)[|parts| - 1]
    decreases |parts|
  {
    if i < |parts| - 1 {
      var init := parts[..|parts| - 1];
      OffsetsMono(init, i);
      FlattenAt(init, |init| - 1);
    }
  }

  lemma {:induction false} EncodeAllAt(h: Heap, table: seq<Value>, refSize: nat, vs: seq<Value>, i: nat)
    requires forall v :: v in vs ==> InHeap(h, v)
    requires EncodeAll(h, table, refSize, vs).Ok? && i < |vs|
    ensures EncodeObject(h, table, refSize, vs[i]) == Ok(EncodeAll(h, table, refSize, vs).value[i])
    decreases |vs|
  {
    if i < |vs| - 1 {
      EncodeAllAt(h, table, refSize, vs[..|vs| - 1], i);
    }
  }

  lemma {:induction false} EncodeAllOk(h: Heap, table: seq<Value>, refSize: nat, vs: seq<Value>)
    requires forall v :: v in vs ==> InHeap(h, v)
    ensures EncodeAll(h, table, refSize, vs).Ok? <==>
            forall i :: 0 <= i < |vs| ==> EncodeObject(h, table, refSize, vs[i]).Ok?
  {
    if vs != [] {
      EncodeAllOk(h, table, refSize, vs[..|vs| - 1]);
      assert forall i :: 0 <= i < |vs| - 1 ==> vs[i] == vs[..|vs| - 1][i];
    }
  }

  // ----- when `create` returns -----

  /** Values the per-type encoders accept. */
  predicate Writable(h: Heap, v: Value)
    requires InHeap(h, v)
  {
    match v
    case Null => true
    case Bool(_) => true
    case Num(n) => -TWO63 <= n < TWO63
    case Big(n) => -TWO63 <= n < TWO63
    case Real(_) => true
    case Str(s) => |s| < TWO32
    case Obj(id) =>
      match h[id]
      case Arr(items) => |items| < TWO32
      case Dict(es) => |es| < TWO32
      case Data(bytes) => |bytes| < TWO32
      case Uid(n) => 0 <= n < TWO32
  }

  lemma EncodeObjectOk(h: Heap, root: Value, v: Value)
    requires ClosedHeap(h) && InHeap(h, root) && InHeap(h, v)
    requires |Collect(h, [], root)| <= TWO64
    ensures var table := Collect(h, [], root);
            EncodeObject(h, table, RefSize(table), v).Ok? <==> Writable(h, v)
  {
    hide Collect, EncodeNums, Pow256, BE, IndexOf;
    var table := Collect(h, [], root);
    Pow256Values();
    if v.Obj? {
      match h[v.id]
      case Arr(items) => RefsFit(h, root, items);
      case Dict(es) =>
        RefsFit(h, root, EntryKeys(es));
        RefsFit(h, root, EntryValues(es));
      case Data(_) =>
      case Uid(_) =>
    }
  }

  /** The data section of a graph whose values can all be written. */
  function Body(h: Heap, root: Value): seq<Bytes>
    requires ClosedHeap(h) && InHeap(h, root)
  {
    var table := Collect(h, [], root);
    CollectInHeap(h, [], root);
    match EncodeAll(h, table, RefSize(table), table)
    case Ok(parts) => parts
    case Err(_) => []
  }

  lemma CreateParts(h: Heap, root: Value)
    requires ClosedHeap(h) && InHeap(h, root) && |Collect(h, [], root)| <= TWO64
    ensures var table := Collect(h, [], root);
            && (forall x :: x in table ==> InHeap(h, x))
            && (EncodeAll(h, table, RefSize(table), table).Ok? <==> forall v :: v in table ==> Writable(h, v))
            && (EncodeAll(h, table, RefSize(table), table).Ok? ==>
                  |Body(h, root)| == |table| > 0
                  && CreateBytes(h, root) == Assemble(table, RefSize(table), Body(h, root)))
            && (EncodeAll(h, table, RefSize(table), table).Err? ==> CreateBytes(h, root).Err?)
  {
    var table := Collect(h, [], root);
    CollectInHeap(h, [], root);
    RootFirst(h, root);
    EncodeAllOk(h, table, RefSize(table), table);
    forall v | v in table
      ensures EncodeObject(h, table, RefSize(table), v).Ok? <==> Writable(h, v)
    {
      EncodeObjectOk(h, root, v);
    }
  }

  /**
   * `create` returns exactly when every reachable value can be written and the last object starts
   * at an offset that fits the width chosen from the header-less data length.
   */
  lemma CreateReturns(h: Heap, root: Value)
    requires ClosedHeap(h) && InHeap(h, root) && |Collect(h, [], root)| <= TWO64
    ensures CreateBytes(h, root).Ok? <==>
            && (forall v :: Reachable(h, root, v) ==> InHeap(h, v) && Writable(h, v))
            && var parts := Body(h, root);
               |parts| > 0 && Offsets(parts)[|parts| - 1] < Pow256(MinByteSize(|Flatten(parts)|))
  {
    CreateParts(h, root);
    CollectIsReachability(h, root);
    var table := Collect(h, [], root);
    if EncodeAll(h, table, RefSize(table), table).Ok? {
      var parts := Body(h, root);
      var w := MinByteSize(|Flatten(parts)|);
      EncodeNumsOk(Offsets(parts), w);
      forall i | 0 <= i < |parts|
        ensures Offsets(parts)[i] <= Offsets(parts)[|parts| - 1]
      {
        OffsetsMono(parts, i);
      }
    }
  }

  /** Same width class with and without the header: then the offsets always fit. */
  lemma CreateReturnsInWidthClass(h: Heap, root: Value)
    requires ClosedHeap(h) && InHeap(h, root) && |Collect(h, [], root)| <= TWO64
    requires forall v :: Reachable(h, root, v) ==> InHeap(h, v) && Writable(h, v)
    requires var n := |Flatten(Body(h, root))|; MinByteSize(n) == MinByteSize(n + |MAGIC|) && n + |MAGIC| < TWO64
    ensures CreateBytes(h, root).Ok?
  {
    hide Collect, EncodeAll, Reachable, Writable, Flatten, Offsets, Assemble, Pow256, Body, CreateBytes;
    CreateParts(h, root);
    CollectIsReachability(h, root);
    CreateReturns(h, root);
    var parts := Body(h, root);
    var n := |Flatten(parts)|;
    FlattenAt(parts, |parts| - 1);
    MinByteSizeFits(n + |MAGIC|);
  }
}
