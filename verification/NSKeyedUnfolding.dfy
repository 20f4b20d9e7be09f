/**
 * On archives without reference cycles, memoised decoding is the plain unfolding of the table: the
 * memo, the visited set and the depth limit leave no trace in the result.
 */
module NSKeyedUnfolding {
  import opened Wrappers
  import opened NSKeyedDecoding

  // ----- ranked tables -----

  function RankAt(rank: seq<nat>, index: int): nat {
    if 0 <= index < |rank| then rank[index] else 0
  }

  /** A target inside the table has a rank below `b`; one that indexes nothing counts as rank 0. */
  predicate Below(t: Table, rank: seq<nat>, b: nat, target: Target) {
    match target
    case At(index) => InTable(t, index) ==> RankAt(rank, index) < b
    case Nowhere => 0 < b
    case Literal(_) => true
  }

  predicate FieldsBelow(t: Table, rank: seq<nat>, b: nat, fields: seq<Field>) {
    forall i :: 0 <= i < |fields| && fields[i].key != "$class"
        ==> Below(t, rank, b, FieldTarget(t, {}, fields[i].value))
  }

  /** Every reference of an entry leads to entries of lower rank. */
  predicate EntryBelow(t: Table, rank: seq<nat>, b: nat, obj: Raw) {
    match Classify(t, obj)
    case SAlias(uid) => Below(t, rank, b, IndexTarget(uid))
    case SDict(keys, values) =>
      keys.RArr? && values.RArr? ==>
        && (forall i :: 0 <= i < |keys.items| ==> Below(t, rank, b, IndexTarget(keys.items[i])))
        && (forall i :: 0 <= i < |values.items| ==> Below(t, rank, b, IndexTarget(values.items[i])))
    case SArray(refs) =>
      refs.RArr? ==> forall i :: 0 <= i < |refs.items| ==> Below(t, rank, b, ItemTarget(refs.items[i]))
    case SFields(fields) =>
      FieldsBelow(t, rank, b, fields)
    case _ => true
  }

  /** The table has no reference cycle: ranks fall along every reference. */
  predicate Ranked(t: Table, rank: seq<nat>) {
    && |rank| == |t.objects|
    && forall i :: 0 <= i < |rank| ==> EntryBelow(t, rank, rank[i], t.objects[i])
  }

  // ----- plain unfolding -----

  function Plain(t: Table, rank: seq<nat>, index: int): Raw
    requires Ranked(t, rank)
    decreases RankAt(rank, index), 1, 0
  {
    if !InTable(t, index) then RNull
    else
      var b := rank[index];
      assert EntryBelow(t, rank, b, t.objects[index]);
      match Classify(t, t.objects[index])
      case SNull => RNull
      case SPlain(v) => v
      case SBuffer(v) => v
      case SAlias(uid) => PlainTarget(t, rank, b, IndexTarget(uid))
      case SDict(keys, values) =>
        if keys.RArr? && values.RArr? then
          RDict(PlainPairs(t, rank, b, keys.items, values.items, Min(|keys.items|, |values.items|)))
        else RDict([])
      case SArray(refs) => if refs.RArr? then RArr(PlainItems(t, rank, b, refs.items)) else RArr([])
      case SFields(fields) => RDict(PlainFields(t, rank, b, fields))
  }

  function PlainTarget(t: Table, rank: seq<nat>, b: nat, target: Target): Raw
    requires Ranked(t, rank) && Below(t, rank, b, target)
    decreases b, 0, 0
  {
    match target
    case At(index) => if InTable(t, index) then Plain(t, rank, index) else RNull
    case Nowhere => RUndefined
    case Literal(v) => v
  }

  function PlainItems(t: Table, rank: seq<nat>, b: nat, refs: seq<Raw>): (r: seq<Raw>)
    requires Ranked(t, rank) && forall i :: 0 <= i < |refs| ==> Below(t, rank, b, ItemTarget(refs[i]))
    ensures |r| == |refs|
    decreases b, 0, 1 + |refs|
  {
    if refs == [] then []
    else PlainItems(t, rank, b, refs[..|refs| - 1]) + [PlainTarget(t, rank, b, ItemTarget(refs[|refs| - 1]))]
  }

  function PlainPairs(t: Table, rank: seq<nat>, b: nat, keys: seq<Raw>, values: seq<Raw>, n: nat): seq<Field>
    requires Ranked(t, rank) && n <= |keys| && n <= |values|
    requires forall i :: 0 <= i < |keys| ==> Below(t, rank, b, IndexTarget(keys[i]))
    requires forall i :: 0 <= i < |values| ==> Below(t, rank, b, IndexTarget(values[i]))
    decreases b, 0, 1 + n
  {
    if n == 0 then []
    else AddPair(t, PlainPairs(t, rank, b, keys, values, n - 1),
                 PlainTarget(t, rank, b, IndexTarget(keys[n - 1])),
                 PlainTarget(t, rank, b, IndexTarget(values[n - 1])))
  }

  function PlainFields(t: Table, rank: seq<nat>, b: nat, fields: seq<Field>): seq<Field>
    requires Ranked(t, rank) && FieldsBelow(t, rank, b, fields)
    decreases b, 0, 1 + |fields|
  {
    if fields == [] then []
    else
      var init := PlainFields(t, rank, b, fields[..|fields| - 1]);
      var field := fields[|fields| - 1];
      if field.key == "$class" then init
      else Put(init, field.key, PlainTarget(t, rank, b, FieldTarget(t, {}, field.value)))
  }

  // ----- the memo never lies -----

  predicate Sound(t: Table, rank: seq<nat>, memo: Memo)
    requires Ranked(t, rank)
  {
    forall i :: i in memo ==> InTable(t, i) && memo[i] == Plain(t, rank, i)
  }

  /** Everything being decoded ranks at least `b`. */
  predicate Above(t: Table, rank: seq<nat>, visited: set<int>, b: nat) {
    forall i :: i in visited ==> InTable(t, i) && RankAt(rank, i) >= b
  }

  lemma {:induction false} DecodeIsPlain(t: Table, rank: seq<nat>, index: int, visited: set<int>, depth: nat,
                                         memo: Memo)
    requires Ranked(t, rank) && Sound(t, rank, memo) && Above(t, rank, visited, RankAt(rank, index) + 1)
    requires depth + RankAt(rank, index) <= MAX_DEPTH
    ensures var r := Decode(t, index, visited, depth, memo);
            r.value == Plain(t, rank, index) && Sound(t, rank, r.memo)
    decreases RankAt(rank, index), 1, 0
  {
    hide Classify, AddPair, FieldTarget, ItemTarget, IndexTarget;
    if InTable(t, index) && index !in memo {
      var b, inside := rank[index], visited + {index};
      assert EntryBelow(t, rank, b, t.objects[index]);
      assert Above(t, rank, inside, b);
      match Classify(t, t.objects[index])
      case SNull =>
      case SPlain(_) =>
      case SBuffer(_) =>
      case SAlias(uid) => TargetIsPlain(t, rank, b, IndexTarget(uid), inside, depth + 1, memo);
      case SDict(keys, values) =>
        if keys.RArr? && values.RArr? {
          PairsArePlain(t, rank, b, keys.items, values.items, Min(|keys.items|, |values.items|), inside, depth, memo);
        }
      case SArray(refs) =>
        if refs.RArr? {
          ItemsArePlain(t, rank, b, refs.items, inside, depth, memo);
        }
      case SFields(fields) => FieldsArePlain(t, rank, b, fields, inside, depth, memo);
    }
  }

  lemma {:induction false} TargetIsPlain(t: Table, rank: seq<nat>, b: nat, target: Target, visited: set<int>,
                                         depth: nat, memo: Memo)
    requires Ranked(t, rank) && Sound(t, rank, memo) && Above(t, rank, visited, b) && Below(t, rank, b, target)
    requires 0 < depth && depth + b <= MAX_DEPTH + 1
    ensures var r := DecodeTarget(t, target, visited, depth, memo);
            r.value == PlainTarget(t, rank, b, target) && Sound(t, rank, r.memo)
    decreases b, 0, 0
  {
    if target.At? && InTable(t, target.index) {
      DecodeIsPlain(t, rank, target.index, visited, depth, memo);
    }
  }

  lemma {:induction false} ItemsArePlain(t: Table, rank: seq<nat>, b: nat, refs: seq<Raw>, visited: set<int>,
                                         depth: nat, memo: Memo)
    requires Ranked(t, rank) && Sound(t, rank, memo) && Above(t, rank, visited, b) && depth + b <= MAX_DEPTH
    requires forall i :: 0 <= i < |refs| ==> Below(t, rank, b, ItemTarget(refs[i]))
    ensures var r := DecodeItems(t, refs, visited, depth, memo);
            r.values == PlainItems(t, rank, b, refs) && Sound(t, rank, r.memo)
    decreases b, 0, 1 + |refs|
  {
    hide ItemTarget, DecodeTarget, PlainTarget, Sound, Above, Ranked;
    if refs != [] {
      var init := refs[..|refs| - 1];
      ItemsArePlain(t, rank, b, init, visited, depth, memo);
      TargetIsPlain(t, rank, b, ItemTarget(refs[|refs| - 1]), visited, depth + 1,
                    DecodeItems(t, init, visited, depth, memo).memo);
    }
  }

  lemma {:induction false} PairsArePlain(t: Table, rank: seq<nat>, b: nat, keys: seq<Raw>, values: seq<Raw>, n: nat,
                                         visited: set<int>, depth: nat, memo: Memo)
    requires Ranked(t, rank) && Sound(t, rank, memo) && Above(t, rank, visited, b) && depth + b <= MAX_DEPTH
    requires n <= |keys| && n <= |values|
    requires forall i :: 0 <= i < |keys| ==> Below(t, rank, b, IndexTarget(keys[i]))
    requires forall i :: 0 <= i < |values| ==> Below(t, rank, b, IndexTarget(values[i]))
    ensures var r := DecodePairs(t, keys, values, n, visited, depth, memo);
            r.fields == PlainPairs(t, rank, b, keys, values, n) && Sound(t, rank, r.memo)
    decreases b, 0, 1 + n
  {
    hide IndexTarget, DecodeTarget, PlainTarget, Sound, Above, Ranked, AddPair;
    if n > 0 {
      PairsArePlain(t, rank, b, keys, values, n - 1, visited, depth, memo);
      var init := DecodePairs(t, keys, values, n - 1, visited, depth, memo);
      TargetIsPlain(t, rank, b, IndexTarget(keys[n - 1]), visited, depth + 1, init.memo);
      var key := DecodeTarget(t, IndexTarget(keys[n - 1]), visited, depth + 1, init.memo);
      TargetIsPlain(t, rank, b, IndexTarget(values[n - 1]), visited, depth + 1, key.memo);
    }
  }

  lemma {:induction false} FieldsArePlain(t: Table, rank: seq<nat>, b: nat, fields: seq<Field>, visited: set<int>,
                                          depth: nat, memo: Memo)
    requires Ranked(t, rank) && Sound(t, rank, memo) && Above(t, rank, visited, b) && depth + b <= MAX_DEPTH
    requires FieldsBelow(t, rank, b, fields)
    ensures var r := DecodeFields(t, fields, visited, depth, memo);
            r.fields == PlainFields(t, rank, b, fields) && Sound(t, rank, r.memo)
    decreases b, 0, 1 + |fields|
  {
    hide DecodeTarget, PlainTarget, Sound, Ranked, Put, FieldTarget;
    if fields != [] {
      var init, field := fields[..|fields| - 1], fields[|fields| - 1];
      FieldsArePlain(t, rank, b, init, visited, depth, memo);
      if field.key != "$class" {
        VisitedIrrelevant(t, rank, b, visited, field.value);
        TargetIsPlain(t, rank, b, FieldTarget(t, {}, field.value), visited, depth + 1,
                      DecodeFields(t, init, visited, depth, memo).memo);
      }
    }
  }

  /** What is being decoded ranks too high to be a field's target. */
  lemma VisitedIrrelevant(t: Table, rank: seq<nat>, b: nat, visited: set<int>, value: Raw)
    requires Above(t, rank, visited, b) && Below(t, rank, b, FieldTarget(t, {}, value))
    ensures FieldTarget(t, visited, value) == FieldTarget(t, {}, value)
  {
  }

  /** Decoding a whole archive whose references fall in rank, nested at most to the depth limit. */
  lemma ArchiveIsPlain(t: Table, rank: seq<nat>, top: Raw, index: int)
    requires Ranked(t, rank) && RootIndex(top) == Some(index) && RankAt(rank, index) <= MAX_DEPTH
    requires t.objects != []
    ensures DecodeArchive(t, top) == Plain(t, rank, index)
  {
    DecodeIsPlain(t, rank, index, {}, 0, map[]);
  }
}
