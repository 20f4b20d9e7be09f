/** An archive whose numbers were misread is the archive of the value with those numbers. */
module NSKeyedRereading {
  import O = BinaryPlistObjects
  import N = NSKeyedEncoding
  import D = NSKeyedDecoding
  import K = NSKeyedRoundTrip

  // ----- numbers as the plist layer reads them back -----

  function Reread(v: N.Value): N.Value {
    if v.Num? then N.Num(O.NumberReadBack(v.n)) else v
  }

  function RereadEntry(a: N.Archived): N.Archived {
    if a.Plain? then N.Plain(Reread(a.v)) else a
  }

  function RereadEntries(objects: seq<N.Archived>): (r: seq<N.Archived>)
    ensures |r| == |objects| && forall i :: 0 <= i < |r| ==> r[i] == RereadEntry(objects[i])
  {
    seq(|objects|, i requires 0 <= i < |objects| => RereadEntry(objects[i]))
  }

  // ----- archiving does not look at numbers -----

  function RereadAll(vs: seq<N.Value>): (r: seq<N.Value>)
    ensures |r| == |vs| && forall i :: 0 <= i < |r| ==> r[i] == Reread(vs[i])
  {
    seq(|vs|, i requires 0 <= i < |vs| => Reread(vs[i]))
  }

  function RereadFields(es: seq<N.Entry>): (r: seq<N.Entry>)
    ensures |r| == |es| && forall i :: 0 <= i < |r| ==> r[i] == N.Entry(es[i].key, Reread(es[i].value))
  {
    seq(|es|, i requires 0 <= i < |es| => N.Entry(es[i].key, Reread(es[i].value)))
  }

  function RereadNode(n: N.Node): N.Node {
    match n
    case ArrayNode(items) => N.ArrayNode(RereadAll(items))
    case SetNode(items) => N.SetNode(RereadAll(items))
    case DictNode(es) => N.DictNode(RereadFields(es))
    case BufferNode(_) => n
  }

  /** The same graph with every number as the plist layer reads it back. */
  function RereadHeap(h: N.Heap): N.Heap {
    map id | id in h :: RereadNode(h[id])
  }

  function RereadState(st: N.State): N.State {
    st.(objects := RereadEntries(st.objects))
  }

  lemma RereadParts(es: seq<N.Entry>)
    ensures N.Keys(RereadFields(es)) == N.Keys(es) == RereadAll(N.Keys(es))
    ensures N.Values(RereadFields(es)) == RereadAll(N.Values(es))
  {
  }

  lemma RereadKids(h: N.Heap, id: nat)
    requires id in h
    ensures N.Kids(RereadHeap(h)[id]) == RereadAll(N.Kids(h[id]))
  {
    if h[id].DictNode? {
      RereadParts(h[id].entries);
      var es := h[id].entries;
      assert RereadAll(N.Keys(es) + N.Values(es)) == RereadAll(N.Keys(es)) + RereadAll(N.Values(es));
    }
  }

  lemma RereadMember(vs: seq<N.Value>, v: N.Value) returns (u: N.Value)
    requires v in RereadAll(vs)
    ensures u in vs && v == Reread(u)
  {
    var i :| 0 <= i < |vs| && RereadAll(vs)[i] == v;
    u := vs[i];
  }

  lemma RereadGraph(h: N.Heap, rk: nat -> nat)
    requires K.Graph(h, rk)
    ensures K.Graph(RereadHeap(h), rk)
  {
    hide N.Kids;
    var t := RereadHeap(h);
    forall id, v | id in t && v in N.Kids(t[id])
      ensures N.InHeap(t, v) && K.RankOf(rk, v) < rk(id)
    {
      RereadKids(h, id);
      var u := RereadMember(N.Kids(h[id]), v);
      KidRanked(h, rk, id, u);
    }
    forall id | id in t && t[id].DictNode?
      ensures K.DistinctKeys(t[id].entries)
    {
      assert K.DistinctKeys(h[id].entries);
    }
  }

  lemma KidRanked(h: N.Heap, rk: nat -> nat, id: nat, v: N.Value)
    requires K.Graph(h, rk) && id in h && v in N.Kids(h[id])
    ensures N.InHeap(h, v) && K.RankOf(rk, v) < rk(id)
  {
  }

  lemma RereadInHeap(h: N.Heap, vs: seq<N.Value>)
    requires N.AllInHeap(h, vs)
    ensures N.AllInHeap(RereadHeap(h), RereadAll(vs))
  {
    forall v | v in RereadAll(vs)
      ensures N.InHeap(RereadHeap(h), v)
    {
      var u := RereadMember(vs, v);
    }
  }

  lemma RereadPush(objects: seq<N.Archived>, a: N.Archived)
    ensures RereadEntries(objects + [a]) == RereadEntries(objects) + [RereadEntry(a)]
  {
  }

  lemma RereadClass(st: N.State, names: seq<string>)
    requires names != []
    ensures var c := N.GetClassUid(st, names);
            N.GetClassUid(RereadState(st), names) == N.One(c.index, RereadState(c.st))
  {
    RereadPush(st.objects, N.Class(names));
  }

  lemma RereadReserve(st: N.State, id: nat)
    ensures N.Reserve(RereadState(st), id) == RereadState(N.Reserve(st, id))
  {
    RereadPush(st.objects, N.Placeholder);
  }

  lemma RereadStore(st: N.State, index: nat, a: N.Archived)
    requires index < |st.objects| && !a.Plain?
    ensures N.Store(RereadState(st), index, a) == RereadState(N.Store(st, index, a))
  {
    assert RereadEntries(st.objects[index := a]) == RereadEntries(st.objects)[index := a];
  }

  /** After the parts of a node: its class, and the entry filled in. */
  lemma RereadFinish(m: N.State, names: seq<string>, index: nat, a: N.Archived)
    requires names != [] && index < |m.objects| && !a.Plain?
    ensures var c := N.GetClassUid(m, names);
            N.Store(N.GetClassUid(RereadState(m), names).st, index, a) == RereadState(N.Store(c.st, index, a))
            && N.GetClassUid(RereadState(m), names).index == c.index
  {
    RereadClass(m, names);
    RereadStore(N.GetClassUid(m, names).st, index, a);
  }

  ghost predicate Rereadable(h: N.Heap) {
    N.ClosedHeap(h) && N.ClosedHeap(RereadHeap(h))
  }

  lemma {:induction false} RereadArchive(h: N.Heap, st: N.State, v: N.Value)
    requires Rereadable(h) && N.InHeap(h, v)
    ensures var r := N.Archive(h, st, v);
            N.Archive(RereadHeap(h), RereadState(st), Reread(v)) == N.One(r.index, RereadState(r.st))
    decreases N.Uncached(h, st), 0
  {
    hide N.ArchiveNode, N.ClosedHeap;
    if v.Obj? && v.id !in st.cache {
      assert v.id in N.Uncached(h, st) && v.id !in N.Uncached(h, N.Reserve(st, v.id));
      RereadArchiveNode(h, st, v.id);
    } else {
      RereadPush(st.objects, N.Plain(v));
    }
  }

  lemma {:induction false} RereadArchiveAll(h: N.Heap, st: N.State, vs: seq<N.Value>)
    requires Rereadable(h) && N.AllInHeap(h, vs)
    ensures N.AllInHeap(RereadHeap(h), RereadAll(vs))
    ensures var r := N.ArchiveAll(h, st, vs);
            N.ArchiveAll(RereadHeap(h), RereadState(st), RereadAll(vs)) == N.Many(r.indices, RereadState(r.st))
    decreases N.Uncached(h, st), |vs| + 1
  {
    hide N.Archive, N.ClosedHeap;
    RereadInHeap(h, vs);
    if vs != [] {
      var n := |vs| - 1;
      var init := N.ArchiveAll(h, st, vs[..n]);
      RereadArchiveAll(h, st, vs[..n]);
      assert vs[n] in vs;
      assert N.Uncached(h, init.st) <= N.Uncached(h, st);
      RereadArchive(h, init.st, vs[n]);
      assert RereadAll(vs)[..n] == RereadAll(vs[..n]);
    }
  }

  lemma {:induction false} RereadArchiveNode(h: N.Heap, st: N.State, id: nat)
    requires Rereadable(h) && id in h && id !in st.cache
    ensures var r := N.ArchiveNode(h, st, id);
            N.ArchiveNode(RereadHeap(h), RereadState(st), id) == N.One(r.index, RereadState(r.st))
    decreases N.Uncached(h, N.Reserve(st, id)), |N.Kids(h[id])| + 3
  {
    hide N.ArchiveAll, N.GetClassUid, N.Store, RereadState, RereadEntries;
    var s, index := N.Reserve(st, id), |st.objects|;
    RereadReserve(st, id);
    assert |RereadState(st).objects| == index by { SameLength(st); }
    match h[id]
    case BufferNode(bytes) =>
      RereadFinish(s, N.NS_DATA, index, N.DataObject(bytes, N.GetClassUid(s, N.NS_DATA).index));
    case ArrayNode(items) =>
      RereadList(h, s, id, items);
      var m := N.ArchiveAll(h, s, items);
      RereadFinish(m.st, N.NS_ARRAY, index, N.List(m.indices, N.GetClassUid(m.st, N.NS_ARRAY).index));
    case SetNode(items) =>
      RereadList(h, s, id, items);
      var m := N.ArchiveAll(h, s, items);
      RereadFinish(m.st, N.NS_SET, index, N.List(m.indices, N.GetClassUid(m.st, N.NS_SET).index));
    case DictNode(es) =>
      N.DictKids(h, id);
      RereadParts(es);
      RereadArchiveAll(h, s, N.Keys(es));
      var ks := N.ArchiveAll(h, s, N.Keys(es));
      assert N.Uncached(h, ks.st) <= N.Uncached(h, s);
      RereadArchiveAll(h, ks.st, N.Values(es));
      var vs := N.ArchiveAll(h, ks.st, N.Values(es));
      var c := N.GetClassUid(vs.st, N.NS_DICTIONARY);
      RereadFinish(vs.st, N.NS_DICTIONARY, index, N.Dictionary(ks.indices, vs.indices, c.index));
  }

  lemma {:induction false} RereadList(h: N.Heap, s: N.State, id: nat, items: seq<N.Value>)
    requires Rereadable(h) && id in h && id in s.cache && (h[id] == N.ArrayNode(items) || h[id] == N.SetNode(items))
    ensures N.AllInHeap(h, items) && N.AllInHeap(RereadHeap(h), RereadAll(items))
    ensures var m := N.ArchiveAll(h, s, items);
            N.ArchiveAll(RereadHeap(h), RereadState(s), RereadAll(items)) == N.Many(m.indices, RereadState(m.st))
    decreases N.Uncached(h, s), |items| + 2
  {
    assert N.Kids(h[id]) == items;
    RereadArchiveAll(h, s, items);
  }

  lemma SameLength(st: N.State)
    ensures |RereadState(st).objects| == |st.objects|
  {
  }

  // ----- when is the value with those numbers the original? -----

  /** No buffer, no string or key "$null", and no number in 128..255, anywhere in the value. */
  predicate Survives(h: N.Heap, rk: nat -> nat, v: N.Value)
    requires K.Graph(h, rk) && N.InHeap(h, v)
    decreases K.RankOf(rk, v), 1, 0
  {
    match v
    case Num(n) => !(128 <= n <= 255)
    case Str(s) => s != "$null"
    case Obj(id) =>
      (match h[id]
       case ArrayNode(items) => K.KidsFit(h, rk, id); AllSurvive(h, rk, rk(id), items)
       case SetNode(items) => K.KidsFit(h, rk, id); AllSurvive(h, rk, rk(id), items)
       case DictNode(es) => K.KidsFit(h, rk, id);
         (forall e :: e in es ==> e.key != "$null") && AllSurvive(h, rk, rk(id), N.Values(es))
       case BufferNode(_) => false)
    case _ => true
  }

  predicate AllSurvive(h: N.Heap, rk: nat -> nat, b: nat, vs: seq<N.Value>)
    requires K.Graph(h, rk) && K.Fit(h, rk, b, vs)
    decreases b, 0, |vs|
  {
    vs == [] ||
    (assert vs[|vs| - 1] in vs;
     AllSurvive(h, rk, b, vs[..|vs| - 1]) && Survives(h, rk, vs[|vs| - 1]))
  }

  lemma RereadFit(h: N.Heap, rk: nat -> nat, b: nat, vs: seq<N.Value>)
    requires K.Fit(h, rk, b, vs)
    ensures K.Fit(RereadHeap(h), rk, b, RereadAll(vs))
  {
    forall v | v in RereadAll(vs)
      ensures N.InHeap(RereadHeap(h), v) && K.RankOf(rk, v) < b
    {
      var u := RereadMember(vs, v);
    }
  }

  lemma {:induction false} SameWhenSurvives(h: N.Heap, rk: nat -> nat, v: N.Value)
    requires K.Graph(h, rk) && K.Graph(RereadHeap(h), rk) && N.InHeap(h, v)
    ensures K.Tree(RereadHeap(h), rk, Reread(v)) == K.Original(h, rk, v) <==> Survives(h, rk, v)
    decreases K.RankOf(rk, v), 1, 0
  {
    hide K.Graph, K.Fit, RereadFields, RereadAll;
    if v.Obj? {
      K.KidsFit(h, rk, v.id);
      K.KidsFit(RereadHeap(h), rk, v.id);
      match h[v.id]
      case ArrayNode(items) => AllSameWhenSurvive(h, rk, rk(v.id), items);
      case SetNode(items) => AllSameWhenSurvive(h, rk, rk(v.id), items);
      case DictNode(es) => EntriesSameWhenSurvive(h, rk, rk(v.id), es);
      case BufferNode(_) =>
    }
  }

  lemma {:induction false} AllSameWhenSurvive(h: N.Heap, rk: nat -> nat, b: nat, vs: seq<N.Value>)
    requires K.Graph(h, rk) && K.Graph(RereadHeap(h), rk) && K.Fit(h, rk, b, vs)
    ensures K.Fit(RereadHeap(h), rk, b, RereadAll(vs))
    ensures K.Trees(RereadHeap(h), rk, b, RereadAll(vs)) == K.Originals(h, rk, b, vs) <==> AllSurvive(h, rk, b, vs)
    decreases b, 0, |vs|
  {
    hide K.Graph, K.Tree, K.Original, Survives, Reread, RereadHeap;
    RereadFit(h, rk, b, vs);
    if vs != [] {
      var n := |vs| - 1;
      var t := RereadHeap(h);
      assert vs[n] in vs;
      AllSameWhenSurvive(h, rk, b, vs[..n]);
      SameWhenSurvives(h, rk, vs[n]);
      assert RereadAll(vs)[..n] == RereadAll(vs[..n]) && RereadAll(vs)[n] == Reread(vs[n]);
      K.LastApart(K.Trees(t, rk, b, RereadAll(vs[..n])), K.Originals(h, rk, b, vs[..n]),
                  K.Tree(t, rk, Reread(vs[n])), K.Original(h, rk, vs[n]));
    }
  }

  /** What the last entry adds. */
  lemma LastTreeEntry(h: N.Heap, rk: nat -> nat, b: nat, es: seq<N.Entry>, e: N.Entry)
    requires K.Graph(h, rk) && K.Fit(h, rk, b, N.Values(es + [e]))
    ensures K.Fit(h, rk, b, N.Values(es)) && N.InHeap(h, e.value)
    ensures K.TreeEntries(h, rk, b, es + [e])
            == K.TreeEntries(h, rk, b, es) + (if e.key == "$null" then [] else [D.Field(e.key, K.Tree(h, rk, e.value))])
  {
    hide K.Graph, K.Tree, K.Fit;
    var n := |es|;
    assert (es + [e])[..n] == es && N.Values(es + [e])[n] == e.value;
    K.FitPrefix(h, rk, b, es + [e], n);
    K.FitAt(h, rk, b, N.Values(es + [e]), n);
  }

  lemma LastOriginalEntry(h: N.Heap, rk: nat -> nat, b: nat, es: seq<N.Entry>, e: N.Entry)
    requires K.Graph(h, rk) && K.Fit(h, rk, b, N.Values(es + [e]))
    ensures K.Fit(h, rk, b, N.Values(es)) && N.InHeap(h, e.value) && K.RankOf(rk, e.value) < b
    ensures K.OriginalEntries(h, rk, b, es + [e])
            == K.OriginalEntries(h, rk, b, es) + [D.Field(e.key, K.Original(h, rk, e.value))]
    ensures AllSurvive(h, rk, b, N.Values(es + [e])) <==> AllSurvive(h, rk, b, N.Values(es)) && Survives(h, rk, e.value)
  {
    hide K.Graph, K.Original, K.Fit, Survives;
    var n := |es|;
    assert (es + [e])[..n] == es && N.Values(es + [e])[n] == e.value;
    assert N.Values(es + [e])[..n] == N.Values(es);
    K.FitPrefix(h, rk, b, es + [e], n);
    K.FitAt(h, rk, b, N.Values(es + [e]), n);
  }

  lemma LastField(t0: seq<D.Field>, o0: seq<D.Field>, t: D.Raw, o: D.Raw, key: string)
    requires |t0| <= |o0|
    ensures t0 + (if key == "$null" then [] else [D.Field(key, t)]) == o0 + [D.Field(key, o)]
            <==> key != "$null" && t0 == o0 && t == o
  {
    if key != "$null" {
      K.LastApart(t0, o0, D.Field(key, t), D.Field(key, o));
    }
  }

  lemma {:induction false} EntriesSameWhenSurvive(h: N.Heap, rk: nat -> nat, b: nat, es: seq<N.Entry>)
    requires K.Graph(h, rk) && K.Graph(RereadHeap(h), rk) && K.Fit(h, rk, b, N.Values(es))
    ensures K.Fit(RereadHeap(h), rk, b, N.Values(RereadFields(es)))
    ensures |K.TreeEntries(RereadHeap(h), rk, b, RereadFields(es))| <= |es|
    ensures K.TreeEntries(RereadHeap(h), rk, b, RereadFields(es)) == K.OriginalEntries(h, rk, b, es)
            <==> (forall e :: e in es ==> e.key != "$null") && AllSurvive(h, rk, b, N.Values(es))
    decreases b, 0, |es|
  {
    hide K.Graph, K.Tree, K.Original, Survives, K.Fit, Reread, RereadHeap;
    RereadFit(h, rk, b, N.Values(es));
    RereadParts(es);
    if es != [] {
      hide K.TreeEntries, K.OriginalEntries, AllSurvive;
      var n := |es| - 1;
      var es0, last, t := es[..n], es[n], RereadHeap(h);
      assert es == es0 + [last];
      assert RereadFields(es) == RereadFields(es0) + [N.Entry(last.key, Reread(last.value))];
      LastTreeEntry(t, rk, b, RereadFields(es0), N.Entry(last.key, Reread(last.value)));
      LastOriginalEntry(h, rk, b, es0, last);
      EntriesSameWhenSurvive(h, rk, b, es0);
      SameWhenSurvives(h, rk, last.value);
      LastField(K.TreeEntries(t, rk, b, RereadFields(es0)), K.OriginalEntries(h, rk, b, es0),
                K.Tree(t, rk, Reread(last.value)), K.Original(h, rk, last.value), last.key);
    }
  }
}
