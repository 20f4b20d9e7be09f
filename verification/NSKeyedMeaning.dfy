/** What decoding an archive gives, entry by entry, in terms of the entries it names. */
module NSKeyedMeaning {
  import opened Wrappers
  import opened NSKeyedDecoding
  import U = NSKeyedUnfolding

  /** The decoding of one entry by itself. */
  function Entry(t: Table, i: int): Raw {
    Decode(t, i, {}, 0, map[]).value
  }

  // ----- references, as archives write them -----

  /** The dictionary has a UID under `CF$UID`. */
  predicate NamesUid(v: Raw, n: int) {
    v.RDict? && FieldOf(v.entries, "CF$UID") == Some(RNum(n))
  }

  predicate HasUidKey(v: Raw) {
    v.RDict? && FieldOf(v.entries, "CF$UID").Some?
  }

  /** A number that indexes an array, a dictionary or a buffer of the table. */
  predicate IndexesObject(t: Table, v: Raw, n: int) {
    v == RNum(n) && 0 <= n < |t.objects| && (t.objects[n].RArr? || t.objects[n].RDict? || t.objects[n].RBuf?)
  }

  /** An entry that is neither a UID, nor a dictionary or array of the archive. */
  predicate Ordinary(obj: Raw) {
    obj.RDict? && FieldOf(obj.entries, "CF$UID").None? && FieldOf(obj.entries, "NS.objects").None?
  }

  predicate IsList(obj: Raw, refs: seq<Raw>) {
    && obj.RDict? && FieldOf(obj.entries, "CF$UID").None? && FieldOf(obj.entries, "NS.keys").None?
    && FieldOf(obj.entries, "NS.objects") == Some(RArr(refs))
  }

  predicate IsDictionary(obj: Raw, keys: seq<Raw>, values: seq<Raw>) {
    && obj.RDict? && FieldOf(obj.entries, "CF$UID").None? && FieldOf(obj.entries, "NS.keys") == Some(RArr(keys))
    && FieldOf(obj.entries, "NS.objects") == Some(RArr(values))
  }

  // ----- tables without cycles -----

  predicate Lower(t: Table, rank: seq<nat>, b: nat, n: int) {
    0 <= n < |t.objects| && n < |rank| ==> rank[n] < b
  }

  predicate FieldFalls(t: Table, rank: seq<nat>, b: nat, v: Raw) {
    && (v.RNum? && IndexesObject(t, v, v.n) ==> Lower(t, rank, b, v.n))
    && (HasUidKey(v) && FieldOf(v.entries, "CF$UID").value.RNum? ==>
          Lower(t, rank, b, FieldOf(v.entries, "CF$UID").value.n))
  }

  /** Numbers, and UIDs under `CF$UID`, in a list of references. */
  predicate RefFalls(t: Table, rank: seq<nat>, b: nat, v: Raw) {
    (v.RNum? ==> Lower(t, rank, b, v.n))
    && (HasUidKey(v) && FieldOf(v.entries, "CF$UID").value.RNum? ==>
          Lower(t, rank, b, FieldOf(v.entries, "CF$UID").value.n))
  }

  predicate ListFalls(t: Table, rank: seq<nat>, b: nat, v: Option<Raw>) {
    v.Some? && v.value.RArr? ==> forall k :: 0 <= k < |v.value.items| ==> RefFalls(t, rank, b, v.value.items[k])
  }

  /** Every reference of an entry ranks below it, and only entries without parts may rank 0. */
  predicate EntryFalls(t: Table, rank: seq<nat>, b: nat, obj: Raw) {
    match obj
    case RArr(items) => b > 0 && forall k :: 0 <= k < |items| ==> FieldFalls(t, rank, b, items[k])
    case RDict(es) =>
      && b > 0
      && (HasUidKey(obj) && FieldOf(es, "CF$UID").value.RNum? ==> Lower(t, rank, b, FieldOf(es, "CF$UID").value.n))
      && ListFalls(t, rank, b, FieldOf(es, "NS.keys")) && ListFalls(t, rank, b, FieldOf(es, "NS.objects"))
      && (Ordinary(obj) ==> forall k :: 0 <= k < |es| && es[k].key != "$class" ==> FieldFalls(t, rank, b, es[k].value))
    case _ => true
  }

  predicate Acyclic(t: Table, rank: seq<nat>) {
    |rank| == |t.objects| && forall i :: 0 <= i < |rank| ==> EntryFalls(t, rank, rank[i], t.objects[i])
  }

  // ----- the decoder sees those references and no others -----

  lemma FieldTargetIs(t: Table, v: Raw)
    ensures FieldTarget(t, {}, v) ==
            if v.RNum? && IndexesObject(t, v, v.n) then At(v.n)
            else if HasUidKey(v) && FieldOf(v.entries, "CF$UID").value.RNum?
                then At(FieldOf(v.entries, "CF$UID").value.n)
            else Literal(v)
  {
    hide FieldOf;
  }

  lemma FieldIsBelow(t: Table, rank: seq<nat>, b: nat, v: Raw)
    requires |rank| == |t.objects| && FieldFalls(t, rank, b, v)
    ensures U.Below(t, rank, b, FieldTarget(t, {}, v))
  {
    hide FieldOf;
    FieldTargetIs(t, v);
  }

  lemma RefIsBelow(t: Table, rank: seq<nat>, b: nat, v: Raw)
    requires |rank| == |t.objects| && b > 0 && RefFalls(t, rank, b, v)
    ensures U.Below(t, rank, b, IndexTarget(v)) && U.Below(t, rank, b, ItemTarget(v))
  {
    hide FieldOf;
  }

  lemma ArrayIsBelow(t: Table, rank: seq<nat>, b: nat, items: seq<Raw>)
    requires |rank| == |t.objects| && b > 0 && forall k :: 0 <= k < |items| ==> FieldFalls(t, rank, b, items[k])
    ensures U.EntryBelow(t, rank, b, RArr(items))
  {
    hide FieldFalls, FieldTarget, U.Below;
    forall k | 0 <= k < |items|
      ensures U.Below(t, rank, b, FieldTarget(t, {}, items[k]))
    {
      FieldIsBelow(t, rank, b, items[k]);
    }
  }

  lemma DictIsBelow(t: Table, rank: seq<nat>, b: nat, es: seq<Field>)
    requires |rank| == |t.objects| && EntryFalls(t, rank, b, RDict(es))
    ensures U.EntryBelow(t, rank, b, RDict(es))
  {
    hide FieldOf, FieldFalls, RefFalls, FieldTarget, IndexTarget, ItemTarget, U.Below;
    var keys, values := FieldOf(es, "NS.keys"), FieldOf(es, "NS.objects");
    if HasUidKey(RDict(es)) {
      UidIsBelow(t, rank, b, FieldOf(es, "CF$UID").value);
    } else if values.Some? {
      if values.value.RArr? {
        ListIsBelow(t, rank, b, values.value.items);
      }
      if keys.Some? && keys.value.RArr? {
        ListIsBelow(t, rank, b, keys.value.items);
      }
    } else {
      forall k | 0 <= k < |es| && es[k].key != "$class"
        ensures U.Below(t, rank, b, FieldTarget(t, {}, es[k].value))
      {
        FieldIsBelow(t, rank, b, es[k].value);
      }
    }
  }

  lemma UidIsBelow(t: Table, rank: seq<nat>, b: nat, uid: Raw)
    requires |rank| == |t.objects| && b > 0 && (uid.RNum? ==> Lower(t, rank, b, uid.n))
    ensures U.Below(t, rank, b, IndexTarget(uid))
  {
  }

  lemma ListIsBelow(t: Table, rank: seq<nat>, b: nat, items: seq<Raw>)
    requires |rank| == |t.objects| && b > 0 && forall k :: 0 <= k < |items| ==> RefFalls(t, rank, b, items[k])
    ensures forall k :: 0 <= k < |items| ==>
              U.Below(t, rank, b, IndexTarget(items[k])) && U.Below(t, rank, b, ItemTarget(items[k]))
  {
    hide RefFalls, IndexTarget, ItemTarget, U.Below;
    forall k | 0 <= k < |items|
      ensures U.Below(t, rank, b, IndexTarget(items[k])) && U.Below(t, rank, b, ItemTarget(items[k]))
    {
      RefIsBelow(t, rank, b, items[k]);
    }
  }

  lemma AcyclicIsRanked(t: Table, rank: seq<nat>)
    requires Acyclic(t, rank)
    ensures U.Ranked(t, rank)
  {
    hide EntryFalls, U.EntryBelow, FieldFalls;
    forall i | 0 <= i < |rank|
      ensures U.EntryBelow(t, rank, rank[i], t.objects[i])
    {
      assert EntryFalls(t, rank, rank[i], t.objects[i]);
      match t.objects[i]
      case RArr(items) => ArrayFalls(t, rank, rank[i], items); ArrayIsBelow(t, rank, rank[i], items);
      case RDict(es) => DictIsBelow(t, rank, rank[i], es);
      case _ => LeafIsBelow(t, rank, rank[i], t.objects[i]);
    }
  }

  lemma ArrayFalls(t: Table, rank: seq<nat>, b: nat, items: seq<Raw>)
    requires EntryFalls(t, rank, b, RArr(items))
    ensures b > 0 && forall k :: 0 <= k < |items| ==> FieldFalls(t, rank, b, items[k])
  {
  }

  lemma LeafIsBelow(t: Table, rank: seq<nat>, b: nat, obj: Raw)
    requires !obj.RArr? && !obj.RDict?
    ensures U.EntryBelow(t, rank, b, obj)
  {
  }

  // ----- what each kind of entry decodes to -----

  /** An entry that the depth limit does not cut, by itself or inside another. */
  predicate Shallow(t: Table, rank: seq<nat>, i: int) {
    0 <= i < |t.objects| && |rank| == |t.objects| && rank[i] <= 1000
  }

  lemma EntryIsPlain(t: Table, rank: seq<nat>, i: int)
    requires U.Ranked(t, rank) && U.RankAt(rank, i) <= 1000
    ensures Entry(t, i) == U.Plain(t, rank, i)
  {
    hide Decode, U.Plain, U.Ranked;
    U.DecodeIsPlain(t, rank, i, {}, 0, map[]);
  }

  /** Outside the table there is null. */
  lemma NothingDecoded(t: Table, i: int)
    requires !(0 <= i < |t.objects|)
    ensures Entry(t, i) == RNull
  {
  }

  /** Null and the string "$null" decode to null, other primitives and buffers to themselves. */
  lemma LeafDecoded(t: Table, i: int)
    requires 0 <= i < |t.objects| && !t.objects[i].RArr? && !t.objects[i].RDict?
    ensures Entry(t, i) == if t.objects[i] == RNull || t.objects[i] == RStr("$null") then RNull else t.objects[i]
  {
  }

  /** A UID entry decodes to the entry it names, or to null when there is none. */
  lemma UidDecoded(t: Table, rank: seq<nat>, i: int, n: int)
    requires Acyclic(t, rank) && Shallow(t, rank, i) && NamesUid(t.objects[i], n)
    ensures Entry(t, i) == if 0 <= n < |t.objects| then Entry(t, n) else RNull
  {
    hide Decode, FieldOf, Entry, U.Ranked, U.PlainFields, U.PlainItems, U.PlainPairs;
    AcyclicIsRanked(t, rank);
    assert EntryFalls(t, rank, rank[i], t.objects[i]);
    EntryIsPlain(t, rank, i);
    EntryIsPlain(t, rank, n);
    assert U.EntryBelow(t, rank, rank[i], t.objects[i]) by {
      RankedAt(t, rank, i);
    }
  }

  lemma RankedAt(t: Table, rank: seq<nat>, i: int)
    requires U.Ranked(t, rank) && 0 <= i < |rank|
    ensures U.EntryBelow(t, rank, rank[i], t.objects[i])
  {
  }

  lemma LowerEntry(t: Table, rank: seq<nat>, b: nat, n: int)
    requires U.Ranked(t, rank) && b <= 1000 && Lower(t, rank, b, n)
    ensures Entry(t, n) == if 0 <= n < |t.objects| then U.Plain(t, rank, n) else RNull
  {
    hide Decode, U.Plain, Entry;
    EntryIsPlain(t, rank, n);
    if !(0 <= n < |t.objects|) {
      NothingDecoded(t, n);
    }
  }

  // ----- lists -----

  /** What a list holds for one of its references. */
  function RefValue(t: Table, v: Raw): Raw {
    if v.RNum? then Entry(t, v.n)
    else if v.RReal? then RUndefined
    else if HasUidKey(v) then
      var uid := FieldOf(v.entries, "CF$UID").value;
      if uid.RNum? then Entry(t, uid.n) else RUndefined
    else v
  }

  lemma RefIsValue(t: Table, rank: seq<nat>, b: nat, v: Raw)
    requires U.Ranked(t, rank) && 0 < b <= 1000 && RefFalls(t, rank, b, v)
    ensures U.Below(t, rank, b, ItemTarget(v)) && U.PlainTarget(t, rank, b, ItemTarget(v)) == RefValue(t, v)
  {
    hide FieldOf, Entry, U.Plain, U.Ranked;
    if v.RNum? {
      LowerEntry(t, rank, b, v.n);
    } else if HasUidKey(v) && FieldOf(v.entries, "CF$UID").value.RNum? {
      LowerEntry(t, rank, b, FieldOf(v.entries, "CF$UID").value.n);
    }
    RanksCover(t, rank);
  }

  lemma RanksCover(t: Table, rank: seq<nat>)
    requires U.Ranked(t, rank)
    ensures |rank| == |t.objects|
  {
  }

  lemma {:induction false} ItemsAreValues(t: Table, rank: seq<nat>, b: nat, refs: seq<Raw>)
    requires U.Ranked(t, rank) && 0 < b <= 1000 && forall k :: 0 <= k < |refs| ==> RefFalls(t, rank, b, refs[k])
    ensures forall k :: 0 <= k < |refs| ==> U.Below(t, rank, b, ItemTarget(refs[k]))
    ensures var r := U.PlainItems(t, rank, b, refs);
            |r| == |refs| && forall k :: 0 <= k < |refs| ==> r[k] == RefValue(t, refs[k])
  {
    hide RefFalls, ItemTarget, U.Below, RefValue, U.PlainTarget, U.Ranked;
    forall k | 0 <= k < |refs|
      ensures U.Below(t, rank, b, ItemTarget(refs[k]))
    {
      RefIsValue(t, rank, b, refs[k]);
    }
    if refs != [] {
      ItemsAreValues(t, rank, b, refs[..|refs| - 1]);
      RefIsValue(t, rank, b, refs[|refs| - 1]);
    }
  }

  /** An archived array decodes to the array of what its references name, in order. */
  lemma ListDecoded(t: Table, rank: seq<nat>, i: int, refs: seq<Raw>)
    requires Acyclic(t, rank) && Shallow(t, rank, i) && IsList(t.objects[i], refs)
    ensures var r := Entry(t, i);
            r.RArr? && |r.items| == |refs| && forall k :: 0 <= k < |refs| ==> r.items[k] == RefValue(t, refs[k])
  {
    hide Decode, FieldOf, Entry, U.Ranked, U.PlainFields, U.PlainItems, U.PlainPairs, RefFalls, RefValue;
    AcyclicIsRanked(t, rank);
    assert EntryFalls(t, rank, rank[i], t.objects[i]);
    assert ListFalls(t, rank, rank[i], FieldOf(t.objects[i].entries, "NS.objects"));
    RankedAt(t, rank, i);
    EntryIsPlain(t, rank, i);
    ItemsAreValues(t, rank, rank[i], refs);
  }

  // ----- dictionaries -----

  /** What a dictionary's key or value reference names: only numbers do. */
  function IndexValue(t: Table, v: Raw): Raw {
    if v.RNum? then Entry(t, v.n) else RUndefined
  }

  /** The pairs assigned one after the other; a key that is no string, number or boolean drops its pair. */
  function Pairs(t: Table, keys: seq<Raw>, values: seq<Raw>, n: nat): seq<Field>
    requires n <= |keys| && n <= |values|
  {
    if n == 0 then []
    else
      var init, value := Pairs(t, keys, values, n - 1), IndexValue(t, values[n - 1]);
      match IndexValue(t, keys[n - 1])
      case RStr(s) => Put(init, s, value)
      case RNum(k) => Put(init, t.text(RNum(k)), value)
      case RReal(bits) => Put(init, t.text(RReal(bits)), value)
      case RBool(b) => Put(init, t.text(RBool(b)), value)
      case _ => init
  }

  lemma IndexIsValue(t: Table, rank: seq<nat>, b: nat, v: Raw)
    requires U.Ranked(t, rank) && 0 < b <= 1000 && RefFalls(t, rank, b, v)
    ensures U.Below(t, rank, b, IndexTarget(v)) && U.PlainTarget(t, rank, b, IndexTarget(v)) == IndexValue(t, v)
  {
    hide FieldOf, Entry, U.Plain, U.Ranked;
    if v.RNum? {
      LowerEntry(t, rank, b, v.n);
    }
    RanksCover(t, rank);
  }

  lemma AllBelow(t: Table, rank: seq<nat>, b: nat, refs: seq<Raw>)
    requires U.Ranked(t, rank) && 0 < b <= 1000 && forall k :: 0 <= k < |refs| ==> RefFalls(t, rank, b, refs[k])
    ensures forall k :: 0 <= k < |refs| ==> U.Below(t, rank, b, IndexTarget(refs[k]))
  {
    hide RefFalls, IndexTarget, U.Below, U.PlainTarget, U.Ranked;
    forall k | 0 <= k < |refs|
      ensures U.Below(t, rank, b, IndexTarget(refs[k]))
    {
      IndexIsValue(t, rank, b, refs[k]);
    }
  }

  lemma {:induction false} PairsAreValues(t: Table, rank: seq<nat>, b: nat, keys: seq<Raw>, values: seq<Raw>, n: nat)
    requires U.Ranked(t, rank) && 0 < b <= 1000 && n <= |keys| && n <= |values|
    requires forall k :: 0 <= k < |keys| ==> RefFalls(t, rank, b, keys[k]) && U.Below(t, rank, b, IndexTarget(keys[k]))
    requires forall k :: 0 <= k < |values| ==>
               RefFalls(t, rank, b, values[k]) && U.Below(t, rank, b, IndexTarget(values[k]))
    ensures U.PlainPairs(t, rank, b, keys, values, n) == Pairs(t, keys, values, n)
  {
    hide RefFalls, IndexTarget, U.Below, IndexValue, U.PlainTarget, U.Ranked, Put;
    if n > 0 {
      PairsAreValues(t, rank, b, keys, values, n - 1);
      IndexIsValue(t, rank, b, keys[n - 1]);
      IndexIsValue(t, rank, b, values[n - 1]);
    }
  }

  /** An archived dictionary decodes to its pairs, over the shorter of its two lists. */
  lemma DictionaryDecoded(t: Table, rank: seq<nat>, i: int, keys: seq<Raw>, values: seq<Raw>)
    requires Acyclic(t, rank) && Shallow(t, rank, i) && IsDictionary(t.objects[i], keys, values)
    ensures Entry(t, i) == RDict(Pairs(t, keys, values, if |keys| < |values| then |keys| else |values|))
  {
    hide Decode, FieldOf, Entry, U.Ranked, U.PlainFields, U.PlainItems, U.PlainPairs, RefFalls, Pairs, Put;
    AcyclicIsRanked(t, rank);
    var b, es := rank[i], t.objects[i].entries;
    assert EntryFalls(t, rank, b, t.objects[i]);
    assert ListFalls(t, rank, b, FieldOf(es, "NS.keys")) && ListFalls(t, rank, b, FieldOf(es, "NS.objects"));
    RankedAt(t, rank, i);
    EntryIsPlain(t, rank, i);
    AllBelow(t, rank, b, keys);
    AllBelow(t, rank, b, values);
    PairsAreValues(t, rank, b, keys, values, Min(|keys|, |values|));
  }

  // ----- ordinary objects -----

  /** What an ordinary object holds for a field: the entry a number or a UID names, else the value itself. */
  function FieldValue(t: Table, v: Raw): Raw {
    if v.RNum? && IndexesObject(t, v, v.n) then Entry(t, v.n)
    else if HasUidKey(v) && FieldOf(v.entries, "CF$UID").value.RNum? then
      Entry(t, FieldOf(v.entries, "CF$UID").value.n)
    else v
  }

  lemma FieldIsValue(t: Table, rank: seq<nat>, b: nat, v: Raw)
    requires U.Ranked(t, rank) && 0 < b <= 1000 && FieldFalls(t, rank, b, v)
    ensures U.Below(t, rank, b, FieldTarget(t, {}, v))
    ensures U.PlainTarget(t, rank, b, FieldTarget(t, {}, v)) == FieldValue(t, v)
  {
    hide FieldOf, Entry, U.Plain, U.Ranked, FieldTarget;
    RanksCover(t, rank);
    FieldTargetIs(t, v);
    if v.RNum? && IndexesObject(t, v, v.n) {
      LowerEntry(t, rank, b, v.n);
    } else if HasUidKey(v) && FieldOf(v.entries, "CF$UID").value.RNum? {
      LowerEntry(t, rank, b, FieldOf(v.entries, "CF$UID").value.n);
    }
  }

  /** `result[key] = value`: that field, and no other, is the new one. */
  lemma {:induction false} Assigned(es: seq<Field>, key: string, value: Raw, k: string)
    ensures FieldOf(Put(es, key, value), k) == if k == key then Some(value) else FieldOf(es, k)
  {
    if es != [] && es[0].key != key {
      Assigned(es[1..], key, value, k);
      assert Put(es, key, value)[1..] == Put(es[1..], key, value);
    } else if es != [] {
      assert Put(es, key, value)[1..] == es[1..];
    }
  }

  /** The last value assigned to `k`. */
  function LastOf(es: seq<Field>, k: string): Option<Raw> {
    if es == [] then None
    else if es[|es| - 1].key == k then Some(es[|es| - 1].value)
    else LastOf(es[..|es| - 1], k)
  }

  lemma {:induction false} FieldsAreValues(t: Table, rank: seq<nat>, b: nat, es: seq<Field>, k: string)
    requires U.Ranked(t, rank) && 0 < b <= 1000
    requires forall j :: 0 <= j < |es| && es[j].key != "$class" ==> FieldFalls(t, rank, b, es[j].value)
    ensures U.FieldsBelow(t, rank, b, es)
    ensures FieldOf(U.PlainFields(t, rank, b, es), k) ==
            if k == "$class" || LastOf(es, k).None? then None else Some(FieldValue(t, LastOf(es, k).value))
  {
    hide FieldFalls, FieldTarget, U.Below, FieldValue, U.PlainTarget, U.Ranked, Put, FieldOf;
    forall j | 0 <= j < |es| && es[j].key != "$class"
      ensures U.Below(t, rank, b, FieldTarget(t, {}, es[j].value))
    {
      FieldIsValue(t, rank, b, es[j].value);
    }
    if es == [] {
      NoFields(k);
    } else {
      var init, last := es[..|es| - 1], es[|es| - 1];
      FieldsAreValues(t, rank, b, init, k);
      if last.key != "$class" {
        FieldIsValue(t, rank, b, last.value);
        Assigned(U.PlainFields(t, rank, b, init), last.key, FieldValue(t, last.value), k);
      }
    }
  }

  lemma NoFields(k: string)
    ensures FieldOf([], k) == None
  {
  }

  /**
   * An ordinary object decodes to an object without `$class` whose other fields are those of the entry: a
   * number that indexes an object, or a UID, is replaced by what it names, anything else is kept.
   */
  lemma ObjectDecoded(t: Table, rank: seq<nat>, i: int, k: string)
    requires Acyclic(t, rank) && Shallow(t, rank, i) && Ordinary(t.objects[i])
    ensures var r, es := Entry(t, i), t.objects[i].entries;
            && r.RDict?
            && FieldOf(r.entries, k) ==
               if k == "$class" || LastOf(es, k).None? then None else Some(FieldValue(t, LastOf(es, k).value))
  {
    hide Decode, FieldOf, Entry, U.Ranked, U.PlainFields, U.PlainItems, U.PlainPairs, FieldFalls, FieldValue, LastOf;
    AcyclicIsRanked(t, rank);
    var b, es := rank[i], t.objects[i].entries;
    assert EntryFalls(t, rank, b, t.objects[i]);
    RankedAt(t, rank, i);
    EntryIsPlain(t, rank, i);
    FieldsAreValues(t, rank, b, es, k);
  }

  /** A plain array in the table is an ordinary object with its positions as keys. */
  lemma ArrayDecoded(t: Table, rank: seq<nat>, i: int, k: string)
    requires Acyclic(t, rank) && Shallow(t, rank, i) && t.objects[i].RArr?
    ensures var r, items := Entry(t, i), t.objects[i].items;
            var es := seq(|items|, j requires 0 <= j < |items| => Field(t.text(RNum(j)), items[j]));
            && r.RDict?
            && FieldOf(r.entries, k) ==
               if k == "$class" || LastOf(es, k).None? then None else Some(FieldValue(t, LastOf(es, k).value))
  {
    hide Decode, FieldOf, Entry, U.Ranked, U.PlainFields, U.PlainItems, U.PlainPairs, FieldFalls, FieldValue, LastOf;
    AcyclicIsRanked(t, rank);
    var b, items := rank[i], t.objects[i].items;
    assert EntryFalls(t, rank, b, t.objects[i]);
    RankedAt(t, rank, i);
    EntryIsPlain(t, rank, i);
    var es := seq(|items|, j requires 0 <= j < |items| => Field(t.text(RNum(j)), items[j]));
    assert es == IndexedFields(t, items);
    FieldsAreValues(t, rank, b, es, k);
  }

  // ----- which entry is the answer -----

  /** The answer is the decoding of the entry that `root` in `$top` names, by a number or a UID; else of entry 1. */
  lemma RootDecoded(t: Table, top: Raw)
    ensures var root := if top.RDict? then FieldOf(top.entries, "root") else None;
            DecodeArchive(t, top) ==
            if t.objects == [] then RNull
            else if root.Some? && root.value.RNum? then Entry(t, root.value.n)
            else if root.Some? && HasUidKey(root.value) && FieldOf(root.value.entries, "CF$UID").value.RNum? then
              Entry(t, FieldOf(root.value.entries, "CF$UID").value.n)
            else Entry(t, 1)
  {
    hide Decode, FieldOf;
  }

  // ----- references that come back to where they started -----

  /** A list that holds itself decodes to a list with null in those places. */
  lemma ListInItself(t: Table, i: int, refs: seq<Raw>)
    requires 0 <= i < |t.objects| && IsList(t.objects[i], refs) && forall k :: 0 <= k < |refs| ==> refs[k] == RNum(i)
    ensures var r := Entry(t, i);
            r.RArr? && |r.items| == |refs| && forall k :: 0 <= k < |r.items| ==> r.items[k] == RNull
  {
    hide FieldOf, Entry, DecodeItems;
    ItemsInItself(t, i, refs);
    ListEntry(t, i, refs);
  }

  lemma {:induction false} ItemsInItself(t: Table, i: int, refs: seq<Raw>)
    requires forall k :: 0 <= k < |refs| ==> refs[k] == RNum(i)
    ensures var r := DecodeItems(t, refs, {i}, 0, map[]);
            r.memo == map[] && |r.values| == |refs| && forall k :: 0 <= k < |refs| ==> r.values[k] == RNull
  {
    hide Decode, DecodeTarget;
    if refs != [] {
      ItemsInItself(t, i, refs[..|refs| - 1]);
      assert ItemTarget(refs[|refs| - 1]) == At(i);
      Visited(t, i, 1);
    }
  }

  lemma Visited(t: Table, i: int, depth: nat)
    ensures DecodeTarget(t, At(i), {i}, depth, map[]) == Out(RNull, map[])
  {
  }

  lemma ListEntry(t: Table, i: int, refs: seq<Raw>)
    requires 0 <= i < |t.objects| && Classify(t, t.objects[i]) == SArray(RArr(refs))
    ensures Entry(t, i) == RArr(DecodeItems(t, refs, {i}, 0, map[]).values)
  {
    hide DecodeItems, Classify;
    assert {} + {i} == {i};
  }

  lemma ObjectEntry(t: Table, i: int, es: seq<Field>)
    requires 0 <= i < |t.objects| && Classify(t, t.objects[i]) == SFields(es)
    ensures Entry(t, i) == RDict(DecodeFields(t, es, {i}, 0, map[]).fields)
  {
    hide DecodeFields, Classify;
    assert {} + {i} == {i};
  }

  /** An object whose field holds its own number, or its own UID, keeps that field as it is. */
  lemma ObjectInItself(t: Table, i: int, key: string, v: Raw)
    requires 0 <= i < |t.objects| && t.objects[i] == RDict([Field(key, v)]) && (v == RNum(i) || NamesUid(v, i))
    requires key !in {"CF$UID", "NS.objects", "NS.keys", "$class"}
    ensures Entry(t, i) == RDict([Field(key, v)])
  {
    hide Entry, DecodeFields, FieldOf;
    var es := [Field(key, v)];
    OneField(key, v, "CF$UID");
    OneField(key, v, "NS.keys");
    OneField(key, v, "NS.objects");
    ObjectEntry(t, i, es);
    OwnField(t, i, key, v);
  }

  lemma OneField(key: string, v: Raw, k: string)
    ensures FieldOf([Field(key, v)], k) == if key == k then Some(v) else None
  {
    var es := [Field(key, v)];
    assert es[1..] == [];
    assert FieldOf(es[1..], k) == None;
  }

  lemma OwnField(t: Table, i: int, key: string, v: Raw)
    requires 0 <= i < |t.objects| && (v == RNum(i) || NamesUid(v, i)) && key != "$class"
    ensures DecodeFields(t, [Field(key, v)], {i}, 0, map[]) == OutFields([Field(key, v)], map[])
  {
    var es := [Field(key, v)];
    assert FieldTarget(t, {i}, v) == Literal(v);
    NothingToDecode(t, {i});
    assert es[..0] == [];
  }

  lemma NothingToDecode(t: Table, visited: set<int>)
    ensures DecodeFields(t, [], visited, 0, map[]) == OutFields([], map[])
  {
  }

  // ----- a concrete archive -----

  /** `{info: 2}` with entry 2 an object decodes to the object inside. */
  lemma NumberFollowed(text: Raw -> string)
    ensures var t := Table([RStr("$null"), RDict([Field("info", RNum(2))]), RDict([Field("code", RStr("x"))])], text);
            Entry(t, 1).RDict? && FieldOf(Entry(t, 1).entries, "info") == Some(Entry(t, 2))
            && Entry(t, 2).RDict? && FieldOf(Entry(t, 2).entries, "code") == Some(RStr("x"))
  {
    hide Decode, Entry;
    var outer, inner := [Field("info", RNum(2))], [Field("code", RStr("x"))];
    var t := Table([RStr("$null"), RDict(outer), RDict(inner)], text);
    var rank := [0, 2, 1];
    assert outer[1..] == [] && inner[1..] == [];
    ObjectDecoded(t, rank, 1, "info");
    ObjectDecoded(t, rank, 2, "code");
  }
}
