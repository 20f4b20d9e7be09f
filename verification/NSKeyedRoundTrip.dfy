/** Decoding an encoded value gives the value back, up to an exact list of exceptions. */
module NSKeyedRoundTrip {
  import opened Wrappers
  import opened NSKeyedEncoding
  import opened NSKeyedArchiveFacts
  import D = NSKeyedDecoding
  import U = NSKeyedUnfolding

  // ----- from the encoder's table to the decoder's -----

  /** UIDs are written as numbers: the property-list layer reads them back as plain integers. */
  function Numbers(uids: seq<nat>): (r: seq<D.Raw>)
    ensures |r| == |uids| && forall i :: 0 <= i < |r| ==> r[i] == D.RNum(uids[i])
  {
    seq(|uids|, i requires 0 <= i < |uids| => D.RNum(uids[i]))
  }

  function ToRaw(a: Archived): D.Raw {
    match a
    case Placeholder => D.RNull
    case Plain(v) => Primitive(v)
    case List(uids, cls) =>
      D.RDict([D.Field("NS.objects", D.RArr(Numbers(uids))), D.Field("$class", D.RNum(cls))])
    case Dictionary(keys, values, cls) =>
      D.RDict([D.Field("NS.keys", D.RArr(Numbers(keys))), D.Field("NS.objects", D.RArr(Numbers(values))),
               D.Field("$class", D.RNum(cls))])
    case DataObject(bytes, cls) =>
      D.RDict([D.Field("NS.data", D.RBuf(bytes)), D.Field("$class", D.RNum(cls))])
    case Class(names) =>
      D.RDict([D.Field("$classes", D.RArr(seq(|names|, i requires 0 <= i < |names| => D.RStr(names[i])))),
               D.Field("$classname", D.RStr(if names == [] then "" else names[0]))])
  }

  function Primitive(v: Value): D.Raw {
    match v
    case Null => D.RNull
    case Bool(b) => D.RBool(b)
    case Num(n) => D.RNum(n)
    case Real(bits) => D.RReal(bits)
    case Str(s) => D.RStr(s)
    case Obj(_) => D.RUndefined
  }

  function TableOf(objects: seq<Archived>, text: D.Raw -> string): (t: D.Table)
    ensures |t.objects| == |objects| && forall i :: 0 <= i < |objects| ==> t.objects[i] == ToRaw(objects[i])
  {
    D.Table(seq(|objects|, i requires 0 <= i < |objects| => ToRaw(objects[i])), text)
  }

  function TopOf(root: nat): D.Raw {
    D.RDict([D.Field("root", D.RNum(root))])
  }

  lemma ClassifyArchived(t: D.Table, a: Archived)
    ensures a.List? ==> D.Classify(t, ToRaw(a)) == D.SArray(D.RArr(Numbers(a.uids)))
    ensures a.Dictionary? ==>
              D.Classify(t, ToRaw(a)) == D.SDict(D.RArr(Numbers(a.keys)), D.RArr(Numbers(a.values)))
    ensures a.DataObject? ==> D.Classify(t, ToRaw(a)) == D.SFields(ToRaw(a).entries)
    ensures a.Class? ==> D.Classify(t, ToRaw(a)) == D.SFields(ToRaw(a).entries)
    ensures a.Placeholder? ==> D.Classify(t, ToRaw(a)) == D.SNull
    ensures a.Plain? ==>
              D.Classify(t, ToRaw(a)) == if a.v.Null? || a.v == Str("$null") then D.SNull else D.SPlain(Primitive(a.v))
  {
    if a.List? || a.Dictionary? || a.DataObject? || a.Class? {
      var es := ToRaw(a).entries;
      FieldOfShort(es, "CF$UID");
      FieldOfShort(es, "NS.keys");
      FieldOfShort(es, "NS.objects");
    }
  }

  lemma FieldOfShort(es: seq<D.Field>, key: string)
    requires 2 <= |es| <= 3
    ensures D.FieldOf(es, key) ==
            if es[0].key == key then Some(es[0].value)
            else if es[1].key == key then Some(es[1].value)
            else if |es| == 3 && es[2].key == key then Some(es[2].value)
            else None
  {
    var rest := es[1..];
    assert rest[0] == es[1] && D.FieldOf(es, key) == if es[0].key == key then Some(es[0].value)
        else D.FieldOf(rest, key);
    if |es| == 3 {
      var last := rest[1..];
      assert last == [es[2]] && last[1..] == [];
      assert D.FieldOf(last, key) == if es[2].key == key then Some(es[2].value) else None;
    } else {
      assert rest[1..] == [];
      assert D.FieldOf(rest[1..], key) == None;
      assert D.FieldOf(rest, key) == if es[1].key == key then Some(es[1].value) else None;
    }
  }

  // ----- values without cycles -----

  /** The nesting depth assigned to a value: primitives are flat. */
  function RankOf(rk: nat -> nat, v: Value): nat {
    if v.Obj? then rk(v.id) else 0
  }

  /** `rk` bounds nesting: the parts of a container rank below it, so the graph has no cycle. */
  ghost predicate Acyclic(h: Heap, rk: nat -> nat) {
    forall id, v :: id in h && v in Kids(h[id]) ==> RankOf(rk, v) < rk(id)
  }

  predicate DistinctKeys(es: seq<Entry>) {
    forall i, j :: 0 <= i < j < |es| ==> es[i].key != es[j].key
  }

  /** The facts JavaScript guarantees of any object graph, and acyclicity. */
  ghost predicate Graph(h: Heap, rk: nat -> nat) {
    && ClosedHeap(h) && Acyclic(h, rk)
    && forall id :: id in h && h[id].DictNode? ==> DistinctKeys(h[id].entries)
  }

  // ----- the value that comes back -----

  function Tree(h: Heap, rk: nat -> nat, v: Value): D.Raw
    requires Graph(h, rk) && InHeap(h, v)
    decreases RankOf(rk, v), 1, 0
  {
    match v
    case Str(s) => if s == "$null" then D.RNull else D.RStr(s)
    case Obj(id) =>
      (match h[id]
       case ArrayNode(items) => KidsFit(h, rk, id); D.RArr(Trees(h, rk, rk(id), items))
       case SetNode(items) => KidsFit(h, rk, id); D.RArr(Trees(h, rk, rk(id), items))
       case DictNode(es) => KidsFit(h, rk, id); D.RDict(TreeEntries(h, rk, rk(id), es))
       case BufferNode(bytes) => D.RDict([D.Field("NS.data", D.RBuf(bytes))]))
    case _ => Primitive(v)
  }

  ghost predicate Fit(h: Heap, rk: nat -> nat, b: nat, vs: seq<Value>) {
    forall v :: v in vs ==> InHeap(h, v) && RankOf(rk, v) < b
  }

  lemma KidsFit(h: Heap, rk: nat -> nat, id: nat)
    requires Graph(h, rk) && id in h
    ensures Fit(h, rk, rk(id), Kids(h[id]))
    ensures h[id].DictNode? ==> Fit(h, rk, rk(id), Keys(h[id].entries)) && Fit(h, rk, rk(id), Values(h[id].entries))
  {
    if h[id].DictNode? {
      forall v | v in Keys(h[id].entries) || v in Values(h[id].entries)
        ensures v in Kids(h[id])
      {
      }
    }
  }

  function Trees(h: Heap, rk: nat -> nat, b: nat, vs: seq<Value>): (r: seq<D.Raw>)
    requires Graph(h, rk) && Fit(h, rk, b, vs)
    ensures |r| == |vs|
    decreases b, 0, |vs|
  {
    if vs == [] then []
    else
      assert vs[|vs| - 1] in vs;
      Trees(h, rk, b, vs[..|vs| - 1]) + [Tree(h, rk, vs[|vs| - 1])]
  }

  /** A key that reads "$null" is decoded to null and its entry is dropped. */
  function TreeEntries(h: Heap, rk: nat -> nat, b: nat, es: seq<Entry>): seq<D.Field>
    requires Graph(h, rk) && Fit(h, rk, b, Values(es))
    decreases b, 0, |es|
  {
    if es == [] then []
    else
      var last := es[|es| - 1];
      assert last.value == Values(es)[|es| - 1];
      assert Values(es[..|es| - 1]) == Values(es)[..|es| - 1];
      var init := TreeEntries(h, rk, b, es[..|es| - 1]);
      if last.key == "$null" then init else init + [D.Field(last.key, Tree(h, rk, last.value))]
  }

  // ----- the archive of an acyclic value is a ranked table -----

  /** What `EncodeFacts` says of a finished archive. */
  ghost predicate Finished(h: Heap, st: State) {
    WellFormed(st) && forall id :: id in st.cache ==> Written(h, st, id)
  }

  ghost function OwnerRank(st: State, rk: nat -> nat, i: nat): nat {
    if Owned(st, i) then var id :| id in st.cache && st.cache[id] == i; rk(id) else 0
  }

  ghost function Ranks(st: State, rk: nat -> nat): (r: seq<nat>)
    ensures |r| == |st.objects| && forall i :: 0 <= i < |r| ==> r[i] == OwnerRank(st, rk, i)
  {
    seq(|st.objects|, i requires 0 <= i < |st.objects| => OwnerRank(st, rk, i))
  }

  /** An index standing for `v` ranks as `v` does. */
  lemma HeldRank(st: State, rk: nat -> nat, v: Value, i: nat)
    requires WellFormed(st) && Holds(st, v, i)
    ensures i < |st.objects| && U.RankAt(Ranks(st, rk), i) == RankOf(rk, v)
  {
    if v.Obj? {
      assert Owned(st, i);
    } else {
      assert st.objects[i].Plain?;
    }
  }

  lemma HeldBelow(st: State, rk: nat -> nat, h: Heap, b: nat, vs: seq<Value>, uids: seq<nat>, t: D.Table)
    requires WellFormed(st) && HoldsAll(st, vs, uids) && Fit(h, rk, b, vs) && |t.objects| == |st.objects|
    ensures forall i :: 0 <= i < |uids| ==>
              && U.Below(t, Ranks(st, rk), b, D.IndexTarget(Numbers(uids)[i]))
              && U.Below(t, Ranks(st, rk), b, D.ItemTarget(Numbers(uids)[i]))
  {
    forall i | 0 <= i < |uids|
      ensures U.Below(t, Ranks(st, rk), b, D.At(uids[i]))
    {
      assert vs[i] in vs && Holds(st, vs[i], uids[i]);
      HeldRank(st, rk, vs[i], uids[i]);
    }
  }

  lemma EntryRanked(h: Heap, rk: nat -> nat, st: State, text: D.Raw -> string, i: nat)
    requires Graph(h, rk) && Finished(h, st) && i < |st.objects|
    ensures U.EntryBelow(TableOf(st.objects, text), Ranks(st, rk), OwnerRank(st, rk, i), ToRaw(st.objects[i]))
  {
    hide WellFormed, D.Classify, ToRaw, HoldsAll, Graph, Fit, U.Below;
    var t, a := TableOf(st.objects, text), st.objects[i];
    ClassifyArchived(t, a);
    if a.List? || a.Dictionary? {
      ContainerOwned(st, i);
      var id :| id in st.cache && st.cache[id] == i && OwnerRank(st, rk, i) == rk(id);
      assert Written(h, st, id);
      KidsFit(h, rk, id);
      match h[id]
      case ArrayNode(items) => HeldBelow(st, rk, h, rk(id), items, a.uids, t);
      case SetNode(items) => HeldBelow(st, rk, h, rk(id), items, a.uids, t);
      case DictNode(es) =>
        HeldBelow(st, rk, h, rk(id), Keys(es), a.keys, t);
        HeldBelow(st, rk, h, rk(id), Values(es), a.values, t);
      case BufferNode(_) =>
    } else if a.DataObject? || a.Class? {
      LiteralFields(t, Ranks(st, rk), OwnerRank(st, rk, i), a);
    }
  }

  lemma ContainerOwned(st: State, i: nat)
    requires WellFormed(st) && i < |st.objects| && IsContainerEntry(st.objects[i])
    ensures Owned(st, i)
  {
  }

  lemma LiteralFields(t: D.Table, rank: seq<nat>, b: nat, a: Archived)
    requires a.DataObject? || a.Class?
    ensures U.FieldsBelow(t, rank, b, ToRaw(a).entries)
  {
  }

  lemma TableRanked(h: Heap, rk: nat -> nat, st: State, text: D.Raw -> string)
    requires Graph(h, rk) && Finished(h, st)
    ensures U.Ranked(TableOf(st.objects, text), Ranks(st, rk))
  {
    hide Graph, Finished, U.EntryBelow, ToRaw;
    forall i | 0 <= i < |st.objects|
      ensures U.EntryBelow(TableOf(st.objects, text), Ranks(st, rk), Ranks(st, rk)[i],
                           TableOf(st.objects, text).objects[i])
    {
      EntryRanked(h, rk, st, text, i);
    }
  }

  // ----- unfolding the table gives the value -----

  lemma {:induction false} PlainIsTree(h: Heap, rk: nat -> nat, st: State, text: D.Raw -> string, v: Value, i: nat)
    requires Graph(h, rk) && Finished(h, st) && InHeap(h, v) && Holds(st, v, i)
    requires U.Ranked(TableOf(st.objects, text), Ranks(st, rk))
    ensures U.Plain(TableOf(st.objects, text), Ranks(st, rk), i) == Tree(h, rk, v)
    decreases RankOf(rk, v), 2, 0
  {
    hide WellFormed, ToRaw, Graph, U.Plain, U.Ranked, Written;
    HeldRank(st, rk, v, i);
    if v.Obj? {
      NodeIsTree(h, rk, st, text, v.id);
    } else {
      FirstIsNull(st);
      PrimitiveParts(TableOf(st.objects, text), Ranks(st, rk), i, st.objects[i]);
    }
  }

  lemma {:induction false} NodeIsTree(h: Heap, rk: nat -> nat, st: State, text: D.Raw -> string, id: nat)
    requires Graph(h, rk) && Finished(h, st) && id in h && id in st.cache
    requires U.Ranked(TableOf(st.objects, text), Ranks(st, rk))
    ensures U.Plain(TableOf(st.objects, text), Ranks(st, rk), st.cache[id]) == Tree(h, rk, Obj(id))
    decreases rk(id), 1, 0
  {
    hide WellFormed, ToRaw, HoldsAll, Fit, U.Below, Graph, U.Plain, U.Ranked, D.IndexTarget, D.ItemTarget, ClassAt;
    hide U.PlainItems, U.PlainPairs, Trees, TreeEntries, Keys, Values;
    var t, rank := TableOf(st.objects, text), Ranks(st, rk);
    var i := st.cache[id];
    HeldRank(st, rk, Obj(id), i);
    var a := st.objects[i];
    assert Written(h, st, id);
    KidsFit(h, rk, id);
    EntryParts(t, rank, i, a);
    match h[id]
    case ArrayNode(items) => ItemsAreTrees(h, rk, st, text, rk(id), items, a.uids);
    case SetNode(items) => ItemsAreTrees(h, rk, st, text, rk(id), items, a.uids);
    case DictNode(es) =>
      KeysDistinct(h, rk, id);
      SameLength(st, es, a.keys, a.values);
      PairsAreTrees(h, rk, st, text, rk(id), es, a.keys, a.values, |es|);
      assert es[..|es|] == es;
    case BufferNode(bytes) =>
  }

  lemma SameLength(st: State, es: seq<Entry>, keys: seq<nat>, values: seq<nat>)
    requires HoldsAll(st, Keys(es), keys) && HoldsAll(st, Values(es), values)
    ensures |keys| == |values| == |es|
  {
  }

  lemma KeysDistinct(h: Heap, rk: nat -> nat, id: nat)
    requires Graph(h, rk) && id in h && h[id].DictNode?
    ensures DistinctKeys(h[id].entries)
  {
  }

  lemma FirstIsNull(st: State)
    requires WellFormed(st)
    ensures st.objects[0] == Plain(Str("$null"))
  {
  }

  /** The plain unfolding of a container entry, and what it says of the entry's references. */
  lemma EntryParts(t: D.Table, rank: seq<nat>, i: nat, a: Archived)
    requires U.Ranked(t, rank) && i < |rank| && t.objects[i] == ToRaw(a)
    ensures a.List? ==>
              && (forall k :: 0 <= k < |a.uids| ==> U.Below(t, rank, rank[i], D.ItemTarget(Numbers(a.uids)[k])))
              && U.Plain(t, rank, i) == D.RArr(U.PlainItems(t, rank, rank[i], Numbers(a.uids)))
    ensures a.Dictionary? ==>
              && (forall k :: 0 <= k < |a.keys| ==> U.Below(t, rank, rank[i], D.IndexTarget(Numbers(a.keys)[k])))
              && (forall k :: 0 <= k < |a.values| ==> U.Below(t, rank, rank[i], D.IndexTarget(Numbers(a.values)[k])))
              && U.Plain(t, rank, i) == D.RDict(U.PlainPairs(t, rank, rank[i], Numbers(a.keys), Numbers(a.values),
                                                             D.Min(|a.keys|, |a.values|)))
    ensures a.DataObject? ==> U.Plain(t, rank, i) == D.RDict([D.Field("NS.data", D.RBuf(a.bytes))])
  {
    hide D.Classify, U.Below, D.IndexTarget, D.ItemTarget, U.PlainItems, U.PlainPairs, ToRaw;
    ClassifyArchived(t, a);
    assert U.EntryBelow(t, rank, rank[i], t.objects[i]);
    if a.DataObject? {
      BufferIsFields(t, rank, rank[i], a);
    }
  }

  lemma PrimitiveParts(t: D.Table, rank: seq<nat>, i: nat, a: Archived)
    requires U.Ranked(t, rank) && i < |rank| && t.objects[i] == ToRaw(a) && a.Plain?
    ensures U.Plain(t, rank, i) == if a.v.Null? || a.v == Str("$null") then D.RNull else Primitive(a.v)
  {
    hide D.Classify, ToRaw;
    ClassifyArchived(t, a);
  }

  lemma BufferIsFields(t: D.Table, rank: seq<nat>, b: nat, a: Archived)
    requires a.DataObject? && U.Ranked(t, rank) && U.FieldsBelow(t, rank, b, ToRaw(a).entries)
    ensures U.PlainFields(t, rank, b, ToRaw(a).entries) == [D.Field("NS.data", D.RBuf(a.bytes))]
  {
    var fields := ToRaw(a).entries;
    var first := fields[..1];
    assert fields[..|fields| - 1] == first && first[..0] == [];
    assert U.FieldsBelow(t, rank, b, first);
    assert U.PlainFields(t, rank, b, first[..0]) == [];
    assert U.PlainFields(t, rank, b, first) == D.Put([], "NS.data", D.RBuf(a.bytes));
  }

  lemma {:induction false} ItemsAreTrees(h: Heap, rk: nat -> nat, st: State, text: D.Raw -> string, b: nat,
                                         vs: seq<Value>, uids: seq<nat>)
    requires Graph(h, rk) && Finished(h, st) && Fit(h, rk, b, vs) && HoldsAll(st, vs, uids)
    requires U.Ranked(TableOf(st.objects, text), Ranks(st, rk))
    requires forall i :: 0 <= i < |uids| ==>
               U.Below(TableOf(st.objects, text), Ranks(st, rk), b, D.ItemTarget(Numbers(uids)[i]))
    ensures U.PlainItems(TableOf(st.objects, text), Ranks(st, rk), b, Numbers(uids)) == Trees(h, rk, b, vs)
    decreases b, 0, |vs|
  {
    hide Graph, Finished, Holds, Written, Tree, Primitive, U.Plain, U.Below, ToRaw, D.FieldOf, U.Ranked;
    var t, rank := TableOf(st.objects, text), Ranks(st, rk);
    if vs != [] {
      var n := |vs| - 1;
      var vs0, uids0 := vs[..n], uids[..n];
      assert Numbers(uids)[..n] == Numbers(uids0);
      assert vs[n] in vs;
      assert Holds(st, vs[n], uids[n]);
      forall k | 0 <= k < |vs0|
        ensures Holds(st, vs0[k], uids0[k])
      {
        assert Holds(st, vs[k], uids[k]);
      }
      forall i | 0 <= i < |uids0|
        ensures U.Below(t, rank, b, D.ItemTarget(Numbers(uids0)[i]))
      {
        assert Numbers(uids0)[i] == Numbers(uids)[i];
      }
      ItemsAreTrees(h, rk, st, text, b, vs0, uids0);
      PlainIsTree(h, rk, st, text, vs[n], uids[n]);
      HeldInTable(st, vs[n], uids[n], h);
      assert D.ItemTarget(Numbers(uids)[n]) == D.At(uids[n]);
    }
  }

  lemma HeldInTable(st: State, v: Value, i: nat, h: Heap)
    requires Finished(h, st) && Holds(st, v, i)
    ensures i < |st.objects|
  {
  }

  lemma {:induction false} PairsAreTrees(h: Heap, rk: nat -> nat, st: State, text: D.Raw -> string, b: nat,
                                         es: seq<Entry>, keys: seq<nat>, values: seq<nat>, n: nat)
    requires Graph(h, rk) && Finished(h, st) && Fit(h, rk, b, Keys(es)) && Fit(h, rk, b, Values(es)) && DistinctKeys(es)
    requires HoldsAll(st, Keys(es), keys) && HoldsAll(st, Values(es), values)
    requires U.Ranked(TableOf(st.objects, text), Ranks(st, rk)) && n <= |es|
    requires forall i :: 0 <= i < |keys| ==>
               U.Below(TableOf(st.objects, text), Ranks(st, rk), b, D.IndexTarget(Numbers(keys)[i]))
    requires forall i :: 0 <= i < |values| ==>
               U.Below(TableOf(st.objects, text), Ranks(st, rk), b, D.IndexTarget(Numbers(values)[i]))
    ensures Fit(h, rk, b, Values(es[..n]))
    ensures U.PlainPairs(TableOf(st.objects, text), Ranks(st, rk), b, Numbers(keys), Numbers(values), n)
            == TreeEntries(h, rk, b, es[..n])
    decreases b, 0, n
  {
    hide Graph, Finished, Tree, U.Plain, U.Below, ToRaw, U.Ranked, Fit, DistinctKeys, D.Put, Holds, Written, D.FieldOf,
        Primitive;
    var t, rank := TableOf(st.objects, text), Ranks(st, rk);
    FitPrefix(h, rk, b, es, n);
    if n > 0 {
      var e := es[n - 1];
      var es1 := es[..n];
      assert es1[..n - 1] == es[..n - 1] && es1[n - 1] == e;
      PairsAreTrees(h, rk, st, text, b, es, keys, values, n - 1);
      assert Keys(es)[n - 1] == Str(e.key) && Values(es)[n - 1] == e.value;
      assert Holds(st, Keys(es)[n - 1], keys[n - 1]) && Holds(st, Values(es)[n - 1], values[n - 1]);
      FitAt(h, rk, b, Keys(es), n - 1);
      FitAt(h, rk, b, Values(es), n - 1);
      PlainIsTree(h, rk, st, text, Str(e.key), keys[n - 1]);
      PlainIsTree(h, rk, st, text, e.value, values[n - 1]);
      HeldInTable(st, Str(e.key), keys[n - 1], h);
      HeldInTable(st, e.value, values[n - 1], h);
      KeyIsText(h, rk, e.key);
      if e.key != "$null" {
        TreeKeys(h, rk, b, es[..n - 1]);
        FreshKey(es, n, TreeEntries(h, rk, b, es[..n - 1]));
        PutFresh(TreeEntries(h, rk, b, es[..n - 1]), e.key, Tree(h, rk, e.value));
      }
    }
  }

  lemma KeyIsText(h: Heap, rk: nat -> nat, key: string)
    requires Graph(h, rk)
    ensures Tree(h, rk, Str(key)) == if key == "$null" then D.RNull else D.RStr(key)
  {
  }

  lemma FitPrefix(h: Heap, rk: nat -> nat, b: nat, es: seq<Entry>, n: nat)
    requires Fit(h, rk, b, Values(es)) && n <= |es|
    ensures Fit(h, rk, b, Values(es[..n]))
  {
    forall v | v in Values(es[..n])
      ensures v in Values(es)
    {
      var k :| 0 <= k < n && Values(es[..n])[k] == v;
      assert Values(es)[k] == v;
    }
  }

  lemma FitAt(h: Heap, rk: nat -> nat, b: nat, vs: seq<Value>, k: nat)
    requires Fit(h, rk, b, vs) && k < |vs|
    ensures InHeap(h, vs[k]) && RankOf(rk, vs[k]) < b
  {
    assert vs[k] in vs;
  }

  lemma {:induction false} TreeKeys(h: Heap, rk: nat -> nat, b: nat, es: seq<Entry>)
    requires Graph(h, rk) && Fit(h, rk, b, Values(es))
    ensures forall f :: f in TreeEntries(h, rk, b, es) ==> exists k :: 0 <= k < |es| && es[k].key == f.key
  {
    hide Graph, Fit, Tree;
    if es != [] {
      var es0 := es[..|es| - 1];
      FitPrefix(h, rk, b, es, |es| - 1);
      TreeKeys(h, rk, b, es0);
      forall f | f in TreeEntries(h, rk, b, es)
        ensures exists k :: 0 <= k < |es| && es[k].key == f.key
      {
        if f in TreeEntries(h, rk, b, es0) {
          var k :| 0 <= k < |es0| && es0[k].key == f.key;
          assert es[k].key == f.key;
        } else {
          assert es[|es| - 1].key == f.key;
        }
      }
    }
  }

  lemma FreshKey(es: seq<Entry>, n: nat, fields: seq<D.Field>)
    requires DistinctKeys(es) && 0 < n <= |es|
    requires var init := es[..n - 1]; forall f :: f in fields ==> exists k :: 0 <= k < |init| && init[k].key == f.key
    ensures forall f :: f in fields ==> f.key != es[n - 1].key
  {
    var init := es[..n - 1];
    forall f | f in fields
      ensures f.key != es[n - 1].key
    {
      var k :| 0 <= k < |init| && init[k].key == f.key;
      assert es[k].key != es[n - 1].key;
    }
  }

  lemma {:induction false} PutFresh(fields: seq<D.Field>, key: string, value: D.Raw)
    requires forall f :: f in fields ==> f.key != key
    ensures D.Put(fields, key, value) == fields + [D.Field(key, value)]
  {
    if fields != [] {
      assert fields[0] in fields;
      PutFresh(fields[1..], key, value);
    }
  }

  // ----- the round trip -----

  /**
   * Encoding any acyclic value nested at most 1000 deep and decoding the archive gives `Tree` of the
   * value: sharing, placeholders, classes, memo, visited set and depth limit leave no other trace.
   */
  lemma RoundTrip(h: Heap, rk: nat -> nat, root: Value, text: D.Raw -> string)
    requires Graph(h, rk) && InHeap(h, root) && RankOf(rk, root) <= 1000
    ensures var r := Archive(h, START, root);
            D.DecodeArchive(TableOf(r.st.objects, text), TopOf(r.index)) == Tree(h, rk, root)
  {
    hide WellFormed, U.Ranked, Acyclic, ToRaw, Tree, U.Plain, Archive, D.Decode;
    var r := Archive(h, START, root);
    EncodeFacts(h, root);
    TableRanked(h, rk, r.st, text);
    HeldRank(r.st, rk, root, r.index);
    PlainIsTree(h, rk, r.st, text, root, r.index);
    TopIndex(r.index);
    U.ArchiveIsPlain(TableOf(r.st.objects, text), Ranks(r.st, rk), TopOf(r.index), r.index);
  }

  lemma TopIndex(root: nat)
    ensures D.RootIndex(TopOf(root)) == Some(root)
  {
  }

  // ----- when is that the original value? -----

  /** The original, with sets as arrays. */
  function Original(h: Heap, rk: nat -> nat, v: Value): D.Raw
    requires Graph(h, rk) && InHeap(h, v)
    decreases RankOf(rk, v), 1, 0
  {
    match v
    case Obj(id) =>
      (match h[id]
       case ArrayNode(items) => KidsFit(h, rk, id); D.RArr(Originals(h, rk, rk(id), items))
       case SetNode(items) => KidsFit(h, rk, id); D.RArr(Originals(h, rk, rk(id), items))
       case DictNode(es) => KidsFit(h, rk, id); D.RDict(OriginalEntries(h, rk, rk(id), es))
       case BufferNode(bytes) => D.RBuf(bytes))
    case _ => Primitive(v)
  }

  function Originals(h: Heap, rk: nat -> nat, b: nat, vs: seq<Value>): (r: seq<D.Raw>)
    requires Graph(h, rk) && Fit(h, rk, b, vs)
    ensures |r| == |vs|
    decreases b, 0, |vs|
  {
    if vs == [] then []
    else
      assert vs[|vs| - 1] in vs;
      Originals(h, rk, b, vs[..|vs| - 1]) + [Original(h, rk, vs[|vs| - 1])]
  }

  function OriginalEntries(h: Heap, rk: nat -> nat, b: nat, es: seq<Entry>): (r: seq<D.Field>)
    requires Graph(h, rk) && Fit(h, rk, b, Values(es))
    ensures |r| == |es|
    decreases b, 0, |es|
  {
    if es == [] then []
    else
      var last := es[|es| - 1];
      assert last.value == Values(es)[|es| - 1];
      assert Values(es[..|es| - 1]) == Values(es)[..|es| - 1];
      OriginalEntries(h, rk, b, es[..|es| - 1]) + [D.Field(last.key, Original(h, rk, last.value))]
  }

  /** No buffer, and no string or key "$null", anywhere in the value. */
  predicate Clean(h: Heap, rk: nat -> nat, v: Value)
    requires Graph(h, rk) && InHeap(h, v)
    decreases RankOf(rk, v), 1, 0
  {
    match v
    case Str(s) => s != "$null"
    case Obj(id) =>
      (match h[id]
       case ArrayNode(items) => KidsFit(h, rk, id); AllClean(h, rk, rk(id), items)
       case SetNode(items) => KidsFit(h, rk, id); AllClean(h, rk, rk(id), items)
       case DictNode(es) => KidsFit(h, rk, id);
         (forall e :: e in es ==> e.key != "$null") && AllClean(h, rk, rk(id), Values(es))
       case BufferNode(_) => false)
    case _ => true
  }

  predicate AllClean(h: Heap, rk: nat -> nat, b: nat, vs: seq<Value>)
    requires Graph(h, rk) && Fit(h, rk, b, vs)
    decreases b, 0, |vs|
  {
    vs == [] ||
    (assert vs[|vs| - 1] in vs;
     AllClean(h, rk, b, vs[..|vs| - 1]) && Clean(h, rk, vs[|vs| - 1]))
  }

  lemma {:induction false} SameWhenClean(h: Heap, rk: nat -> nat, v: Value)
    requires Graph(h, rk) && InHeap(h, v)
    ensures Tree(h, rk, v) == Original(h, rk, v) <==> Clean(h, rk, v)
    decreases RankOf(rk, v), 1, 0
  {
    hide Graph, Fit;
    if v.Obj? {
      KidsFit(h, rk, v.id);
      match h[v.id]
      case ArrayNode(items) => AllSameWhenClean(h, rk, rk(v.id), items);
      case SetNode(items) => AllSameWhenClean(h, rk, rk(v.id), items);
      case DictNode(es) => EntriesSameWhenClean(h, rk, rk(v.id), es);
      case BufferNode(_) =>
    }
  }

  lemma {:induction false} AllSameWhenClean(h: Heap, rk: nat -> nat, b: nat, vs: seq<Value>)
    requires Graph(h, rk) && Fit(h, rk, b, vs)
    ensures Trees(h, rk, b, vs) == Originals(h, rk, b, vs) <==> AllClean(h, rk, b, vs)
    decreases b, 0, |vs|
  {
    hide Graph, Tree, Original, Clean;
    if vs != [] {
      var n := |vs| - 1;
      assert vs[n] in vs;
      AllSameWhenClean(h, rk, b, vs[..n]);
      SameWhenClean(h, rk, vs[n]);
      assert Trees(h, rk, b, vs)[..n] == Trees(h, rk, b, vs[..n]);
      assert Originals(h, rk, b, vs)[..n] == Originals(h, rk, b, vs[..n]);
      assert Trees(h, rk, b, vs)[n] == Tree(h, rk, vs[n]) && Originals(h, rk, b, vs)[n] == Original(h, rk, vs[n]);
    }
  }

  lemma {:induction false} EntriesSameWhenClean(h: Heap, rk: nat -> nat, b: nat, es: seq<Entry>)
    requires Graph(h, rk) && Fit(h, rk, b, Values(es))
    ensures |TreeEntries(h, rk, b, es)| <= |es|
    ensures TreeEntries(h, rk, b, es) == OriginalEntries(h, rk, b, es)
            <==> (forall e :: e in es ==> e.key != "$null") && AllClean(h, rk, b, Values(es))
    decreases b, 0, |es|
  {
    hide Graph, Tree, Original, Clean, Fit;
    if es != [] {
      var n := |es| - 1;
      var es0, last := es[..n], es[n];
      FitPrefix(h, rk, b, es, n);
      FitAt(h, rk, b, Values(es), n);
      EntriesSameWhenClean(h, rk, b, es0);
      SameWhenClean(h, rk, last.value);
      assert Values(es)[..n] == Values(es0);
      assert AllClean(h, rk, b, Values(es)) <==> AllClean(h, rk, b, Values(es0)) && Clean(h, rk, last.value);
      assert es == es0 + [last];
      var t0, o0 := TreeEntries(h, rk, b, es0), OriginalEntries(h, rk, b, es0);
      assert OriginalEntries(h, rk, b, es) == o0 + [D.Field(last.key, Original(h, rk, last.value))];
      if last.key != "$null" {
        var t1 := D.Field(last.key, Tree(h, rk, last.value));
        assert TreeEntries(h, rk, b, es) == t0 + [t1];
        LastApart(t0, o0, t1, D.Field(last.key, Original(h, rk, last.value)));
      }
    }
  }

  lemma LastApart<T>(a: seq<T>, b: seq<T>, x: T, y: T)
    ensures a + [x] == b + [y] <==> a == b && x == y
  {
    if a + [x] == b + [y] {
      assert (a + [x])[..|a|] == a && (b + [y])[..|b|] == b;
      assert (a + [x])[|a|] == x && (b + [y])[|b|] == y;
    }
  }

  /** Decoding what was encoded returns the original value exactly when that value is clean. */
  lemma FaithfulExactlyWhen(h: Heap, rk: nat -> nat, root: Value, text: D.Raw -> string)
    requires Graph(h, rk) && InHeap(h, root) && RankOf(rk, root) <= 1000
    ensures var r := Archive(h, START, root);
            D.DecodeArchive(TableOf(r.st.objects, text), TopOf(r.index)) == Original(h, rk, root)
            <==> Clean(h, rk, root)
  {
    hide Graph, Archive, D.DecodeArchive, Tree, Original, Clean;
    RoundTrip(h, rk, root, text);
    SameWhenClean(h, rk, root);
  }

  /** The string "$null" comes back as null. */
  lemma NullStringIsLost(text: D.Raw -> string)
    ensures var r := Archive(map[], START, Str("$null"));
            D.DecodeArchive(TableOf(r.st.objects, text), TopOf(r.index)) == D.RNull
  {
    hide Archive, D.DecodeArchive;
    var rk := (id: nat) => 0;
    RoundTrip(map[], rk, Str("$null"), text);
  }
}
