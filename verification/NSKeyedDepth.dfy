/** Values nested deeper than the decoder's limit of 1000 are cut to null there. */
module NSKeyedDepth {
  import opened Wrappers
  import opened NSKeyedEncoding
  import opened NSKeyedArchiveFacts
  import D = NSKeyedDecoding
  import K = NSKeyedRoundTrip

  /** Array `n` holds array `n - 1`, and so on down to an empty array. */
  function Chain(n: nat): Heap {
    map id: nat | 0 <= id <= n :: Link(id)
  }

  function Link(id: nat): Node {
    ArrayNode(if id == 0 then [] else [Obj(id - 1)])
  }

  function Level(id: nat): nat {
    id
  }

  function Nested(k: nat, inner: D.Raw): D.Raw {
    if k == 0 then inner else D.RArr([Nested(k - 1, inner)])
  }

  /** What is decoded of array `m` at that depth. */
  function Left(m: nat, depth: nat): D.Raw {
    if depth > D.MAX_DEPTH then D.RNull
    else if m == 0 then D.RArr([])
    else D.RArr([Left(m - 1, depth + 1)])
  }

  /** Neither array `m` nor anything inside it has been met. */
  predicate Unmet(st: State, m: nat, seen: set<int>) {
    forall k :: k in st.cache && k <= m ==> st.cache[k] !in seen
  }

  lemma {:induction false} ChainDecode(n: nat, st: State, text: D.Raw -> string, m: nat, visited: set<int>, depth: nat,
                                       memo: D.Memo)
    requires K.Finished(Chain(n), st) && m <= n && m in st.cache
    requires Unmet(st, m, visited) && Unmet(st, m, memo.Keys)
    ensures D.Decode(K.TableOf(st.objects, text), st.cache[m], visited, depth, memo).value == Left(m, depth)
    decreases m
  {
    hide D.Classify, D.Decode, D.DecodeItems, D.Room, K.ToRaw, K.Finished, Chain, Unmet;
    if depth > D.MAX_DEPTH {
      TooDeep(K.TableOf(st.objects, text), st.cache[m], visited, depth, memo);
    } else {
      ChainEntry(n, st, m);
      var t, i, a := K.TableOf(st.objects, text), st.cache[m], st.objects[st.cache[m]];
      K.ClassifyArchived(t, a);
      ItselfUnmet(st, m, visited);
      ItselfUnmet(st, m, memo.Keys);
      ArrayDecode(t, i, visited, depth, memo, K.Numbers(a.uids));
      if m == 0 {
        NoItems(t, K.Numbers(a.uids), visited + {i}, depth, memo);
      } else {
        SmallerUnmet(n, st, m, visited);
        UnmetLess(st, m, memo.Keys);
        ChainDecode(n, st, text, m - 1, visited + {i}, depth + 1, memo);
        OneItem(t, K.Numbers(a.uids), st.cache[m - 1], visited + {i}, depth, memo);
      }
    }
  }

  /** The entry of array `m` lists the one of array `m - 1`. */
  lemma ChainEntry(n: nat, st: State, m: nat)
    requires K.Finished(Chain(n), st) && m <= n && m in st.cache
    ensures st.cache[m] < |st.objects| && st.objects[st.cache[m]].List?
    ensures m == 0 ==> st.objects[st.cache[m]].uids == []
    ensures m > 0 ==> m - 1 in st.cache && st.objects[st.cache[m]].uids == [st.cache[m - 1]]
  {
    hide WellFormed, Describes, HoldsAll, Written;
    assert Written(Chain(n), st, m);
    WrittenArray(Chain(n), st, m, Link(m).items);
    ListedBelow(st, m, st.objects[st.cache[m]].uids);
  }

  lemma WrittenArray(h: Heap, st: State, id: nat, items: seq<Value>)
    requires Written(h, st, id) && h[id] == ArrayNode(items)
    ensures id in st.cache && st.cache[id] < |st.objects| && st.objects[st.cache[id]].List?
    ensures HoldsAll(st, items, st.objects[st.cache[id]].uids)
  {
    hide HoldsAll, ClassAt;
  }

  lemma ListedBelow(st: State, m: nat, uids: seq<nat>)
    requires HoldsAll(st, Link(m).items, uids)
    ensures m == 0 ==> uids == []
    ensures m > 0 ==> m - 1 in st.cache && uids == [st.cache[m - 1]]
  {
    if m > 0 {
      assert Holds(st, Link(m).items[0], uids[0]);
    }
  }

  lemma ItselfUnmet(st: State, m: nat, seen: set<int>)
    requires m in st.cache && Unmet(st, m, seen)
    ensures st.cache[m] !in seen
  {
  }

  lemma TooDeep(t: D.Table, i: int, visited: set<int>, depth: nat, memo: D.Memo)
    requires depth > D.MAX_DEPTH
    ensures D.Decode(t, i, visited, depth, memo).value == D.RNull
  {
  }

  lemma ArrayDecode(t: D.Table, i: int, visited: set<int>, depth: nat, memo: D.Memo, refs: seq<D.Raw>)
    requires depth <= D.MAX_DEPTH && D.InTable(t, i) && i !in visited && i !in memo
    requires D.Classify(t, t.objects[i]) == D.SArray(D.RArr(refs))
    ensures D.Decode(t, i, visited, depth, memo).value
            == D.RArr(D.DecodeItems(t, refs, visited + {i}, depth, memo).values)
  {
    hide D.Classify, D.DecodeItems;
  }

  lemma NoItems(t: D.Table, refs: seq<D.Raw>, visited: set<int>, depth: nat, memo: D.Memo)
    requires refs == []
    ensures D.DecodeItems(t, refs, visited, depth, memo).values == []
  {
  }

  lemma OneItem(t: D.Table, refs: seq<D.Raw>, index: nat, visited: set<int>, depth: nat, memo: D.Memo)
    requires refs == [D.RNum(index)]
    ensures D.DecodeItems(t, refs, visited, depth, memo).values == [D.Decode(t, index, visited, depth + 1, memo).value]
  {
    hide D.Decode;
    assert refs[..0] == [] && D.DecodeItems(t, refs[..0], visited, depth, memo) == D.Outs([], memo);
  }

  lemma SmallerUnmet(n: nat, st: State, m: nat, seen: set<int>)
    requires K.Finished(Chain(n), st) && m > 0 && m in st.cache && Unmet(st, m, seen)
    ensures Unmet(st, m - 1, seen + {st.cache[m]})
  {
  }

  lemma UnmetLess(st: State, m: nat, seen: set<int>)
    requires m > 0 && Unmet(st, m, seen)
    ensures Unmet(st, m - 1, seen)
  {
  }

  lemma {:induction false} LeftIsNested(m: nat, depth: nat)
    requires depth <= D.MAX_DEPTH + 1
    ensures Left(m, depth) == if depth + m <= D.MAX_DEPTH then Nested(m, D.RArr([]))
            else Nested(D.MAX_DEPTH + 1 - depth, D.RNull)
    decreases m
  {
    if m > 0 && depth <= D.MAX_DEPTH {
      LeftIsNested(m - 1, depth + 1);
    }
  }

  lemma ChainGraph(n: nat)
    ensures K.Graph(Chain(n), Level)
  {
  }

  /** A chain of arrays comes back whole, or as 1001 arrays around null. */
  lemma ChainRoundTrip(n: nat, text: D.Raw -> string)
    ensures ClosedHeap(Chain(n))
    ensures var r := Archive(Chain(n), START, Obj(n));
            D.DecodeArchive(K.TableOf(r.st.objects, text), K.TopOf(r.index))
            == if n <= 1000 then Nested(n, D.RArr([])) else Nested(1001, D.RNull)
  {
    hide Archive, D.Decode, Left, Nested, WellFormed;
    ChainGraph(n);
    var r := Archive(Chain(n), START, Obj(n));
    EncodeFacts(Chain(n), Obj(n));
    HasObjects(r.st);
    K.TopIndex(r.index);
    ChainDecode(n, r.st, text, n, {}, 0, map[]);
    LeftIsNested(n, 0);
  }

  lemma HasObjects(st: State)
    requires WellFormed(st)
    ensures st.objects != []
  {
  }

  lemma {:induction false} NestedApart(k: nat, n: nat)
    requires k <= n
    ensures Nested(k, D.RNull) != Nested(n, D.RArr([]))
  {
    if k > 0 {
      NestedApart(k - 1, n - 1);
    }
  }

  lemma {:induction false} ChainOriginal(n: nat, m: nat)
    requires m <= n && K.Graph(Chain(n), Level)
    ensures K.Original(Chain(n), Level, Obj(m)) == Nested(m, D.RArr([]))
    decreases m
  {
    hide K.Graph;
    var h, rk := Chain(n), Level;
    K.KidsFit(h, rk, m);
    if m == 0 {
      assert K.Originals(h, rk, rk(m), []) == [];
    } else {
      ChainOriginal(n, m - 1);
      OneOriginal(h, rk, m, Obj(m - 1));
    }
  }

  lemma OneOriginal(h: Heap, rk: nat -> nat, b: nat, v: Value)
    requires K.Graph(h, rk) && K.Fit(h, rk, b, [v])
    ensures InHeap(h, v) && K.Originals(h, rk, b, [v]) == [K.Original(h, rk, v)]
  {
    hide K.Graph, K.Original;
    assert v in [v];
    assert [v][..0] == [] && K.Originals(h, rk, b, [v][..0]) == [];
  }

  /** So the limit is exact: such a value comes back if and only if it is nested at most 1000 deep. */
  lemma ChainFaithfulExactlyWhen(n: nat, text: D.Raw -> string)
    ensures K.Graph(Chain(n), Level)
    ensures var r := Archive(Chain(n), START, Obj(n));
            D.DecodeArchive(K.TableOf(r.st.objects, text), K.TopOf(r.index)) == K.Original(Chain(n), Level, Obj(n))
            <==> n <= 1000
  {
    hide Archive, D.DecodeArchive, K.Original, Nested;
    ChainGraph(n);
    ChainRoundTrip(n, text);
    ChainOriginal(n, n);
    if n > D.MAX_DEPTH {
      NestedApart(D.MAX_DEPTH + 1, n);
    }
  }
}
