/** What the encoder's object table holds, at every point of the recursion. */
module NSKeyedArchiveFacts {
  import opened Wrappers
  import opened NSKeyedEncoding

  // ----- what the object table says about a value -----

  /** Index `i` of the table stands for `v`. */
  predicate Holds(st: State, v: Value, i: nat) {
    match v
    case Null => i == 0
    case Obj(id) => id in st.cache && st.cache[id] == i
    case _ => i < |st.objects| && st.objects[i] == Plain(v)
  }

  predicate HoldsAll(st: State, vs: seq<Value>, indices: seq<nat>) {
    |vs| == |indices| && forall k :: 0 <= k < |vs| ==> Holds(st, vs[k], indices[k])
  }

  /** A class and its ancestors. */
  function Ancestry(name: string): (names: seq<string>)
    ensures names != [] && names[0] == name
  {
    if name == "NSMutableData" then ["NSMutableData", "NSData", "NSObject"] else [name, "NSObject"]
  }

  predicate ClassAt(st: State, cls: nat, name: string) {
    cls < |st.objects| && st.objects[cls] == Class(Ancestry(name))
  }

  /** Entry `a` describes node `n`: it lists indices that stand for its parts. */
  predicate Describes(st: State, n: Node, a: Archived) {
    match n
    case ArrayNode(items) => a.List? && HoldsAll(st, items, a.uids) && ClassAt(st, a.cls, "NSArray")
    case SetNode(items) => a.List? && HoldsAll(st, items, a.uids) && ClassAt(st, a.cls, "NSSet")
    case DictNode(es) =>
      a.Dictionary? && HoldsAll(st, Keys(es), a.keys) && HoldsAll(st, Values(es), a.values)
      && ClassAt(st, a.cls, "NSDictionary")
    case BufferNode(bytes) => a.DataObject? && a.bytes == bytes && ClassAt(st, a.cls, "NSMutableData")
  }

  /** Object `id` is archived completely. */
  predicate Written(h: Heap, st: State, id: nat) {
    id in h && id in st.cache && st.cache[id] < |st.objects| && Describes(st, h[id], st.objects[st.cache[id]])
  }

  predicate IsContainerEntry(a: Archived) {
    a.Placeholder? || a.List? || a.Dictionary? || a.DataObject?
  }

  ghost predicate Owned(st: State, i: nat) {
    exists id :: id in st.cache && st.cache[id] == i
  }

  ghost predicate WellFormed(st: State) {
    && |st.objects| > 0 && st.objects[0] == Plain(Str("$null"))
    && (forall id :: id in st.cache ==> st.cache[id] < |st.objects|)
    && (forall id, id' :: id in st.cache && id' in st.cache && id != id' ==> st.cache[id] != st.cache[id'])
    && (forall i :: 0 <= i < |st.objects| && IsContainerEntry(st.objects[i]) ==> Owned(st, i))
    && (forall i :: 0 <= i < |st.objects| && st.objects[i].Plain? ==> !st.objects[i].v.Obj? && !Owned(st, i))
    && (forall name :: name in st.classes ==> ClassAt(st, st.classes[name], name))
  }

  // ----- growth -----

  /** The table only grows, and only placeholders are overwritten. */
  predicate Grows(s: State, t: State) {
    && |s.objects| <= |t.objects|
    && (forall k :: 0 <= k < |s.objects| ==> s.objects[k].Placeholder? || t.objects[k] == s.objects[k])
    && (forall id :: id in s.cache ==> id in t.cache && t.cache[id] == s.cache[id])
  }

  /** The table only grows. */
  predicate Extends(s: State, t: State) {
    s.objects <= t.objects && (forall id :: id in s.cache ==> id in t.cache && t.cache[id] == s.cache[id])
  }

  lemma HoldsAllGrows(s: State, t: State, vs: seq<Value>, indices: seq<nat>)
    requires Grows(s, t) && HoldsAll(s, vs, indices)
    ensures HoldsAll(t, vs, indices)
  {
    forall k | 0 <= k < |vs|
      ensures Holds(t, vs[k], indices[k])
    {
      assert Holds(s, vs[k], indices[k]);
    }
  }

  lemma WrittenGrows(h: Heap, s: State, t: State, id: nat)
    requires Grows(s, t) && Written(h, s, id)
    ensures Written(h, t, id)
  {
    var a := s.objects[s.cache[id]];
    assert t.objects[t.cache[id]] == a;
    match h[id]
    case ArrayNode(items) => HoldsAllGrows(s, t, items, a.uids);
    case SetNode(items) => HoldsAllGrows(s, t, items, a.uids);
    case DictNode(es) => HoldsAllGrows(s, t, Keys(es), a.keys); HoldsAllGrows(s, t, Values(es), a.values);
    case BufferNode(_) =>
  }

  /** Every object first reached between `s` and `t` is archived completely. */
  predicate NewWritten(h: Heap, s: State, t: State) {
    forall id :: id in t.cache && id !in s.cache ==> Written(h, t, id)
  }

  lemma NewWrittenTwice(h: Heap, s: State, t: State, u: State)
    requires NewWritten(h, s, t) && NewWritten(h, t, u) && Grows(t, u)
    ensures NewWritten(h, s, u)
  {
    hide Written, Grows;
    forall id | id in u.cache && id !in s.cache
      ensures Written(h, u, id)
    {
      if id in t.cache {
        WrittenGrows(h, t, u, id);
      }
    }
  }

  // ----- single steps -----

  lemma ReserveFacts(st: State, id: nat)
    requires WellFormed(st) && id !in st.cache
    ensures WellFormed(Reserve(st, id)) && Extends(st, Reserve(st, id))
  {
    var t := Reserve(st, id);
    assert t.cache[id] == |st.objects|;
    forall i | 0 <= i < |t.objects|
      ensures IsContainerEntry(t.objects[i]) ==> Owned(t, i)
      ensures t.objects[i].Plain? ==> !t.objects[i].v.Obj? && !Owned(t, i)
    {
      if i < |st.objects| {
        assert t.objects[i] == st.objects[i];
        if Owned(st, i) {
          var o :| o in st.cache && st.cache[o] == i;
          assert o in t.cache && t.cache[o] == i;
        }
      }
    }
    forall name | name in t.classes
      ensures ClassAt(t, t.classes[name], name)
    {
      assert ClassAt(st, st.classes[name], name);
    }
  }

  lemma PushFacts(st: State, a: Archived, classes: map<string, nat>)
    requires WellFormed(st) && ((a.Plain? && !a.v.Obj?) || a.Class?)
    requires var t := State(st.objects + [a], st.cache, classes);
             forall name :: name in classes ==> ClassAt(t, classes[name], name)
    ensures var t := State(st.objects + [a], st.cache, classes); WellFormed(t) && Extends(st, t)
  {
    var t := State(st.objects + [a], st.cache, classes);
    forall i | 0 <= i < |t.objects|
      ensures IsContainerEntry(t.objects[i]) ==> Owned(t, i)
      ensures t.objects[i].Plain? ==> !t.objects[i].v.Obj? && !Owned(t, i)
    {
      if i < |st.objects| {
        assert t.objects[i] == st.objects[i];
        if Owned(st, i) {
          var o :| o in st.cache && st.cache[o] == i;
          assert o in t.cache && t.cache[o] == i;
        }
      }
    }
  }

  lemma ClassFacts(st: State, names: seq<string>)
    requires WellFormed(st) && names != [] && names == Ancestry(names[0])
    ensures var c := GetClassUid(st, names);
            WellFormed(c.st) && Extends(st, c.st) && c.st.cache == st.cache && ClassAt(c.st, c.index, names[0])
  {
    if names[0] !in st.classes {
      var c := GetClassUid(st, names);
      forall name | name in c.st.classes
        ensures ClassAt(c.st, c.st.classes[name], name)
      {
        if name != names[0] {
          assert ClassAt(st, st.classes[name], name);
        }
      }
      PushFacts(st, Class(names), c.st.classes);
    }
  }

  lemma StoreFacts(st: State, index: nat, a: Archived)
    requires WellFormed(st) && index < |st.objects| && st.objects[index].Placeholder?
    requires IsContainerEntry(a)
    ensures WellFormed(Store(st, index, a)) && Grows(st, Store(st, index, a))
  {
    var t := Store(st, index, a);
    forall i | 0 <= i < |t.objects|
      ensures IsContainerEntry(t.objects[i]) ==> Owned(t, i)
      ensures t.objects[i].Plain? ==> !t.objects[i].v.Obj? && !Owned(t, i)
    {
      assert IsContainerEntry(st.objects[i]) ==> Owned(st, i);
      if Owned(st, i) {
        var o :| o in st.cache && st.cache[o] == i;
        assert o in t.cache && t.cache[o] == i;
      }
    }
    forall name | name in t.classes
      ensures ClassAt(t, t.classes[name], name)
    {
      assert ClassAt(st, st.classes[name], name);
    }
  }

  /** Replacing the reserved entry leaves everything that was there before the reservation. */
  lemma StoreKeeps(st: State, u: State, index: nat, a: Archived)
    requires Extends(st, u) && index == |st.objects| && index < |u.objects|
    ensures Extends(st, Store(u, index, a))
  {
    assert u.objects[index := a][..|st.objects|] == st.objects;
  }

  lemma ExtendsTwice(s: State, t: State, u: State)
    requires Extends(s, t) && Extends(t, u)
    ensures Extends(s, u)
  {
    assert u.objects[..|s.objects|] == t.objects[..|s.objects|] == s.objects;
  }

  lemma ExtendsGrows(s: State, t: State)
    requires Extends(s, t)
    ensures Grows(s, t)
  {
  }

  // ----- the recursion -----

  /** Archiving adds to the table, keeps it well formed and completes every object it reaches. */
  ghost predicate Archives(h: Heap, s: State, t: State) {
    WellFormed(t) && Extends(s, t) && NewWritten(h, s, t)
  }

  lemma ArchivesTwice(h: Heap, s: State, t: State, u: State)
    requires Archives(h, s, t) && Archives(h, t, u)
    ensures Archives(h, s, u)
  {
    hide WellFormed, NewWritten, Grows;
    ExtendsTwice(s, t, u);
    ExtendsGrows(t, u);
    NewWrittenTwice(h, s, t, u);
  }

  lemma {:induction false} ArchiveFacts(h: Heap, st: State, v: Value)
    requires ClosedHeap(h) && InHeap(h, v) && WellFormed(st)
    ensures var r := Archive(h, st, v); Archives(h, st, r.st) && Holds(r.st, v, r.index)
    decreases Uncached(h, st), 0
  {
    if v.Obj? && v.id !in st.cache {
      assert v.id in Uncached(h, st) && v.id !in Uncached(h, Reserve(st, v.id));
      ArchiveNodeFacts(h, st, v.id);
    } else if v.Null? || v.Obj? {
    } else {
      var t := st.(objects := st.objects + [Plain(v)]);
      forall name | name in st.classes
        ensures ClassAt(t, st.classes[name], name)
      {
        assert ClassAt(st, st.classes[name], name);
      }
      PushFacts(st, Plain(v), st.classes);
    }
  }

  lemma {:induction false} ArchiveAllFacts(h: Heap, st: State, vs: seq<Value>)
    requires ClosedHeap(h) && AllInHeap(h, vs) && WellFormed(st)
    ensures var r := ArchiveAll(h, st, vs); Archives(h, st, r.st) && HoldsAll(r.st, vs, r.indices)
    decreases Uncached(h, st), |vs| + 1
  {
    hide Archives, Holds, WellFormed, ClosedHeap, Archive;
    if vs == [] {
      NothingArchived(h, st);
    } else {
      var init := ArchiveAll(h, st, vs[..|vs| - 1]);
      ArchiveAllFacts(h, st, vs[..|vs| - 1]);
      assert vs[|vs| - 1] in vs;
      assert Uncached(h, init.st) <= Uncached(h, st);
      ArchivesWellFormed(h, st, init.st);
      ArchiveFacts(h, init.st, vs[|vs| - 1]);
      var last := Archive(h, init.st, vs[|vs| - 1]);
      ArchivesTwice(h, st, init.st, last.st);
      ArchivesGrows(h, init.st, last.st);
      HoldsAllGrows(init.st, last.st, vs[..|vs| - 1], init.indices);
    }
  }

  lemma NothingArchived(h: Heap, st: State)
    requires WellFormed(st)
    ensures Archives(h, st, st)
  {
  }

  lemma ArchivesWellFormed(h: Heap, s: State, t: State)
    requires Archives(h, s, t)
    ensures WellFormed(t)
  {
  }

  lemma ArchivesGrows(h: Heap, s: State, t: State)
    requires Archives(h, s, t)
    ensures Grows(s, t)
  {
  }

  lemma {:induction false} ArchiveNodeFacts(h: Heap, st: State, id: nat)
    requires ClosedHeap(h) && id in h && id !in st.cache && WellFormed(st)
    ensures var r := ArchiveNode(h, st, id); Archives(h, st, r.st) && Holds(r.st, Obj(id), r.index)
    decreases Uncached(h, Reserve(st, id)), |Kids(h[id])| + 2
  {
    hide Archives, WellFormed, HoldsAll, ClassAt, ArchiveAll, GetClassUid;
    var s := Reserve(st, id);
    ReserveFacts(st, id);
    match h[id]
    case BufferNode(bytes) =>
      NothingArchived(h, s);
      FinishNode(h, st, id, s, NS_DATA);
      var c := GetClassUid(s, NS_DATA);
      StoreNode(h, st, id, c.st, DataObject(bytes, c.index));
    case ArrayNode(items) =>
      assert Kids(h[id]) == items;
      KidsInHeap(h, id);
      ArchiveAllFacts(h, s, items);
      var m := ArchiveAll(h, s, items);
      FinishNode(h, st, id, m.st, NS_ARRAY);
      var c := GetClassUid(m.st, NS_ARRAY);
      HoldsAllGrows(m.st, c.st, items, m.indices);
      StoreNode(h, st, id, c.st, List(m.indices, c.index));
    case SetNode(items) =>
      assert Kids(h[id]) == items;
      KidsInHeap(h, id);
      ArchiveAllFacts(h, s, items);
      var m := ArchiveAll(h, s, items);
      FinishNode(h, st, id, m.st, NS_SET);
      var c := GetClassUid(m.st, NS_SET);
      HoldsAllGrows(m.st, c.st, items, m.indices);
      StoreNode(h, st, id, c.st, List(m.indices, c.index));
    case DictNode(es) =>
      DictKids(h, id);
      ArchiveAllFacts(h, s, Keys(es));
      var ks := ArchiveAll(h, s, Keys(es));
      assert Uncached(h, ks.st) <= Uncached(h, s);
      ArchivesWellFormed(h, s, ks.st);
      ArchiveAllFacts(h, ks.st, Values(es));
      var vs := ArchiveAll(h, ks.st, Values(es));
      ArchivesTwice(h, s, ks.st, vs.st);
      ArchivesGrows(h, ks.st, vs.st);
      HoldsAllGrows(ks.st, vs.st, Keys(es), ks.indices);
      FinishNode(h, st, id, vs.st, NS_DICTIONARY);
      var c := GetClassUid(vs.st, NS_DICTIONARY);
      HoldsAllGrows(vs.st, c.st, Keys(es), ks.indices);
      HoldsAllGrows(vs.st, c.st, Values(es), vs.indices);
      StoreNode(h, st, id, c.st, Dictionary(ks.indices, vs.indices, c.index));
  }

  lemma KidsInHeap(h: Heap, id: nat)
    requires ClosedHeap(h) && id in h
    ensures AllInHeap(h, Kids(h[id]))
  {
  }

  /** After the parts of a node, its class. */
  lemma FinishNode(h: Heap, st: State, id: nat, m: State, names: seq<string>)
    requires WellFormed(st) && id !in st.cache && Archives(h, Reserve(st, id), m)
    requires names != [] && names == Ancestry(names[0])
    ensures var c := GetClassUid(m, names);
            Archives(h, Reserve(st, id), c.st) && Grows(m, c.st) && ClassAt(c.st, c.index, names[0])
  {
    hide WellFormed, ClassAt, Written;
    var c := GetClassUid(m, names);
    ClassFacts(m, names);
    ExtendsTwice(Reserve(st, id), m, c.st);
    ExtendsGrows(m, c.st);
    NewWrittenTwice(h, Reserve(st, id), m, c.st);
  }

  /** Filling the reserved entry completes the node. */
  lemma StoreNode(h: Heap, st: State, id: nat, c: State, a: Archived)
    requires WellFormed(st) && id in h && id !in st.cache && Archives(h, Reserve(st, id), c)
    requires Describes(c, h[id], a)
    ensures var index := |st.objects|;
            && index < |c.objects|
            && Archives(h, st, Store(c, index, a)) && Holds(Store(c, index, a), Obj(id), index)
  {
    hide WellFormed, Describes;
    var s, index := Reserve(st, id), |st.objects|;
    var t := Store(c, index, a);
    assert IsContainerEntry(a) by {
      DescribesContainer(c, h[id], a);
    }
    ReserveFacts(st, id);
    ExtendsTwice(st, s, c);
    assert c.objects[index] == s.objects[index] == Placeholder;
    StoreFacts(c, index, a);
    StoreKeeps(st, c, index, a);
    assert c.cache[id] == s.cache[id] == index;
    DescribesGrows(c, t, h[id], a);
    assert Written(h, t, id);
    forall o | o in t.cache && o !in st.cache
      ensures Written(h, t, o)
    {
      if o != id {
        assert Written(h, c, o);
        WrittenGrows(h, c, t, o);
      }
    }
  }

  lemma DescribesContainer(st: State, n: Node, a: Archived)
    requires Describes(st, n, a)
    ensures IsContainerEntry(a) && !a.Placeholder?
  {
  }

  lemma DescribesGrows(s: State, t: State, n: Node, a: Archived)
    requires Grows(s, t) && Describes(s, n, a)
    ensures Describes(t, n, a)
  {
    match n
    case ArrayNode(items) => HoldsAllGrows(s, t, items, a.uids);
    case SetNode(items) => HoldsAllGrows(s, t, items, a.uids);
    case DictNode(es) => HoldsAllGrows(s, t, Keys(es), a.keys); HoldsAllGrows(s, t, Values(es), a.values);
    case BufferNode(_) =>
  }

  /** The finished archive: every object in the table is complete, and the root index stands for the root. */
  lemma EncodeFacts(h: Heap, root: Value)
    requires ClosedHeap(h) && InHeap(h, root)
    ensures var r := Archive(h, START, root);
            && WellFormed(r.st) && Holds(r.st, root, r.index)
            && forall id :: id in r.st.cache ==> Written(h, r.st, id)
  {
    assert WellFormed(START);
    ArchiveFacts(h, START, root);
  }
}
