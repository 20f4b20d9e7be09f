/**
 * The NSKeyedArchiver decoder: an object table whose entries refer to each other by index is
 * unfolded into one value, with a memo map, a set of indices being decoded and a depth limit.
 */
module NSKeyedDecoding {
  import opened Wrappers

  /** Parsed property-list data, and decoded values. */
  datatype Raw =
    | RUndefined
    | RNull
    | RBool(b: bool)
    | RNum(n: int)
    | RReal(bits: seq<int>)
    | RStr(s: string)
    | RBuf(bytes: seq<int>)
    | RArr(items: seq<Raw>)
    | RDict(entries: seq<Field>)

  datatype Field = Field(key: string, value: Raw)

  /** The `$objects` table, and JavaScript's `String(x)` for keys that are not strings. */
  datatype Table = Table(objects: seq<Raw>, text: Raw -> string)

  type Memo = map<int, Raw>
  datatype Out = Out(value: Raw, memo: Memo)
  datatype Outs = Outs(values: seq<Raw>, memo: Memo)
  datatype OutFields = OutFields(fields: seq<Field>, memo: Memo)

  const MAX_DEPTH: nat := 1000

  function FieldOf(es: seq<Field>, key: string): Option<Raw> {
    if es == [] then None
    else if es[0].key == key then Some(es[0].value)
    else FieldOf(es[1..], key)
  }

  predicate Has(obj: Raw, key: string) {
    obj.RDict? && FieldOf(obj.entries, key).Some?
  }

  function Get(obj: Raw, key: string): Raw
    requires Has(obj, key)
  {
    FieldOf(obj.entries, key).value
  }

  /** `result[key] = value`. */
  function Put(es: seq<Field>, key: string, value: Raw): seq<Field> {
    if es == [] then [Field(key, value)]
    else if es[0].key == key then [Field(key, value)] + es[1..]
    else [es[0]] + Put(es[1..], key, value)
  }

  // ----- what a table entry is -----

  datatype Shape =
    | SNull
    | SPlain(v: Raw)
    | SBuffer(v: Raw)
    | SAlias(uid: Raw)
    | SDict(keys: Raw, values: Raw)
    | SArray(refs: Raw)
    | SFields(fields: seq<Field>)

  function IndexedFields(t: Table, items: seq<Raw>): seq<Field> {
    seq(|items|, i requires 0 <= i < |items| => Field(t.text(RNum(i)), items[i]))
  }

  /** The tests of `decodeObject`, in its order. */
  function Classify(t: Table, obj: Raw): Shape {
    match obj
    case RNull => SNull
    case RStr(s) => if s == "$null" then SNull else SPlain(obj)
    case RBuf(_) => SBuffer(obj)
    case RArr(items) => SFields(IndexedFields(t, items))
    case RDict(es) =>
      if Has(obj, "CF$UID") then SAlias(Get(obj, "CF$UID"))
      else if Has(obj, "NS.keys") && Has(obj, "NS.objects") then SDict(Get(obj, "NS.keys"), Get(obj, "NS.objects"))
      else if Has(obj, "NS.objects") then SArray(Get(obj, "NS.objects"))
      else SFields(es)
    case _ => SPlain(obj)
  }

  // ----- what a reference is -----

  /** An index to decode, something that indexes nothing, or a value kept as it is. */
  datatype Target = At(index: int) | Nowhere | Literal(v: Raw)

  function IndexTarget(ref: Raw): Target {
    if ref.RNum? then At(ref.n) else Nowhere
  }

  function ItemTarget(ref: Raw): Target {
    if ref.RNum? || ref.RReal? then IndexTarget(ref)
    else if Has(ref, "CF$UID") then IndexTarget(Get(ref, "CF$UID"))
    else Literal(ref)
  }

  predicate IsObject(v: Raw) {
    v.RBuf? || v.RArr? || v.RDict?
  }

  /** A field of an ordinary object: numbers that index an object and UIDs are followed. */
  function FieldTarget(t: Table, visited: set<int>, value: Raw): Target {
    if value.RNum? && 0 <= value.n < |t.objects| && IsObject(t.objects[value.n]) && value.n !in visited then At(value.n)
    else if Has(value, "CF$UID") && Get(value, "CF$UID").RNum? && Get(value, "CF$UID").n !in visited
    then At(Get(value, "CF$UID").n)
    else Literal(value)
  }

  predicate InTable(t: Table, index: int) {
    0 <= index < |t.objects|
  }

  function Room(t: Table, visited: set<int>): set<int> {
    set i | 0 <= i < |t.objects| && i !in visited
  }

  function KeyText(t: Table, key: Raw): Option<string> {
    match key
    case RStr(s) => Some(s)
    case RNum(_) => Some(t.text(key))
    case RReal(_) => Some(t.text(key))
    case RBool(_) => Some(t.text(key))
    case _ => None
  }

  function Min(a: nat, b: nat): nat {
    if a < b then a else b
  }

  // ----- memoised decoding -----

  function Decode(t: Table, index: int, visited: set<int>, depth: nat, memo: Memo): Out
    decreases Room(t, visited), 0
  {
    if depth > MAX_DEPTH || !InTable(t, index) || index in visited then Out(RNull, memo)
    else if index in memo then Out(memo[index], memo)
    else
      var inside := visited + {index};
      assert index in Room(t, visited) && index !in Room(t, inside);
      match Classify(t, t.objects[index])
      case SNull => Out(RNull, memo)
      case SPlain(v) => Out(v, memo)
      case SBuffer(v) => Out(v, memo[index := v])
      case SAlias(uid) => DecodeTarget(t, IndexTarget(uid), inside, depth + 1, memo)
      case SDict(keys, values) =>
        if keys.RArr? && values.RArr? then
          var r := DecodePairs(t, keys.items, values.items, Min(|keys.items|, |values.items|), inside, depth, memo);
          Out(RDict(r.fields), r.memo[index := RDict(r.fields)])
        else Out(RDict([]), memo[index := RDict([])])
      case SArray(refs) =>
        if refs.RArr? then
          var r := DecodeItems(t, refs.items, inside, depth, memo);
          Out(RArr(r.values), r.memo[index := RArr(r.values)])
        else Out(RArr([]), memo[index := RArr([])])
      case SFields(fields) =>
        var r := DecodeFields(t, fields, inside, depth, memo);
        Out(RDict(r.fields), r.memo[index := RDict(r.fields)])
  }

  function DecodeTarget(t: Table, target: Target, visited: set<int>, depth: nat, memo: Memo): Out
    decreases Room(t, visited), 1
  {
    match target
    case At(index) => Decode(t, index, visited, depth, memo)
    case Nowhere => Out(if depth > MAX_DEPTH then RNull else RUndefined, memo)
    case Literal(v) => Out(v, memo)
  }

  function DecodeItems(t: Table, refs: seq<Raw>, visited: set<int>, depth: nat, memo: Memo): (r: Outs)
    ensures |r.values| == |refs|
    decreases Room(t, visited), 2 + |refs|
  {
    if refs == [] then Outs([], memo)
    else
      var init := DecodeItems(t, refs[..|refs| - 1], visited, depth, memo);
      var last := DecodeTarget(t, ItemTarget(refs[|refs| - 1]), visited, depth + 1, init.memo);
      Outs(init.values + [last.value], last.memo)
  }

  function DecodePairs(t: Table, keys: seq<Raw>, values: seq<Raw>, n: nat, visited: set<int>, depth: nat, memo: Memo)
    : OutFields
    requires n <= |keys| && n <= |values|
    decreases Room(t, visited), 2 + n
  {
    if n == 0 then OutFields([], memo)
    else
      var init := DecodePairs(t, keys, values, n - 1, visited, depth, memo);
      var key := DecodeTarget(t, IndexTarget(keys[n - 1]), visited, depth + 1, init.memo);
      var value := DecodeTarget(t, IndexTarget(values[n - 1]), visited, depth + 1, key.memo);
      OutFields(AddPair(t, init.fields, key.value, value.value), value.memo)
  }

  function AddPair(t: Table, fields: seq<Field>, key: Raw, value: Raw): seq<Field> {
    match KeyText(t, key)
    case None => fields
    case Some(s) => Put(fields, s, value)
  }

  function DecodeFields(t: Table, fields: seq<Field>, visited: set<int>, depth: nat, memo: Memo): OutFields
    decreases Room(t, visited), 2 + |fields|
  {
    if fields == [] then OutFields([], memo)
    else
      var init := DecodeFields(t, fields[..|fields| - 1], visited, depth, memo);
      var field := fields[|fields| - 1];
      if field.key == "$class" then init
      else
        var r := DecodeTarget(t, FieldTarget(t, visited, field.value), visited, depth + 1, init.memo);
        OutFields(Put(init.fields, field.key, r.value), r.memo)
  }

  // ----- the whole archive -----

  /** The index in `$top`, when there is one. */
  function RootIndex(top: Raw): Option<int> {
    if Has(top, "root") then
      var root := Get(top, "root");
      if root.RNum? then Some(root.n)
      else if Has(root, "CF$UID") && Get(root, "CF$UID").RNum? then Some(Get(root, "CF$UID").n)
      else None
    else None
  }

  function DecodeArchive(t: Table, top: Raw): Raw {
    if t.objects == [] then RNull
    else match RootIndex(top)
      case Some(index) => Decode(t, index, {}, 0, map[]).value
      case None => Decode(t, 1, {}, 0, map[]).value
  }
}

module NSKeyedArchiverDecoder {
  import opened Wrappers
  import opened NSKeyedDecoding

  class NSKeyedArchiverDecoder {
    const table: Table
    var decoded: Memo
    var visited: set<int>

    constructor (t: Table)
      ensures table == t && decoded == map[] && visited == {}
    {
      table := t;
      decoded, visited := map[], {};
    }

    /** Decodes one entry; every call leaves the set of visited indices as it found it. */
    method DecodeObject(index: int, depth: nat) returns (r: Raw)
      modifies this
      ensures visited == old(visited)
      ensures Out(r, decoded) == old(Decode(table, index, visited, depth, decoded))
      decreases Room(table, visited), 0
    {
      hide Classify, AddPair, FieldTarget, ItemTarget;
      if depth > MAX_DEPTH || !InTable(table, index) || index in visited {
        return RNull;
      }
      if index in decoded {
        return decoded[index];
      }
      assert index in Room(table, visited);
      visited := visited + {index};
      assert index !in Room(table, visited);
      match Classify(table, table.objects[index]) {
        case SNull =>
          r := RNull;
        case SPlain(v) =>
          r := v;
        case SBuffer(v) =>
          decoded := decoded[index := v];
          r := v;
        case SAlias(uid) =>
          r := DecodeReference(IndexTarget(uid), depth + 1);
        case SDict(keys, values) =>
          r := DecodeDictionary(keys, values, depth);
          decoded := decoded[index := r];
        case SArray(refs) =>
          r := DecodeArray(refs, depth);
          decoded := decoded[index := r];
        case SFields(fields) =>
          r := DecodeRegular(fields, depth);
          decoded := decoded[index := r];
      }
      visited := visited - {index};
    }

    method DecodeReference(target: Target, depth: nat) returns (r: Raw)
      modifies this
      ensures visited == old(visited)
      ensures Out(r, decoded) == old(DecodeTarget(table, target, visited, depth, decoded))
      decreases Room(table, visited), 1
    {
      match target
      case At(index) => r := DecodeObject(index, depth);
      case Nowhere => r := if depth > MAX_DEPTH then RNull else RUndefined;
      case Literal(v) => r := v;
    }

    method DecodeArray(refs: Raw, depth: nat) returns (r: Raw)
      modifies this
      ensures visited == old(visited)
      ensures refs.RArr? ==>
                var d := old(DecodeItems(table, refs.items, visited, depth, decoded));
                r == RArr(d.values) && decoded == d.memo
      ensures !refs.RArr? ==> r == RArr([]) && decoded == old(decoded)
      decreases Room(table, visited), 2
    {
      if !refs.RArr? {
        return RArr([]);
      }
      hide ItemTarget, DecodeTarget;
      var result: seq<Raw> := [];
      for i := 0 to |refs.items|
        invariant visited == old(visited)
        invariant Outs(result, decoded) == old(DecodeItems(table, refs.items[..i], visited, depth, decoded))
      {
        assert refs.items[..i + 1][..i] == refs.items[..i];
        var value := DecodeReference(ItemTarget(refs.items[i]), depth + 1);
        result := result + [value];
      }
      assert refs.items[..|refs.items|] == refs.items;
      r := RArr(result);
    }

    method DecodeDictionary(keys: Raw, values: Raw, depth: nat) returns (r: Raw)
      modifies this
      ensures visited == old(visited)
      ensures keys.RArr? && values.RArr? ==>
                var n := Min(|keys.items|, |values.items|);
                var d := old(DecodePairs(table, keys.items, values.items, n, visited, depth, decoded));
                r == RDict(d.fields) && decoded == d.memo
      ensures !(keys.RArr? && values.RArr?) ==> r == RDict([]) && decoded == old(decoded)
      decreases Room(table, visited), 2
    {
      if !keys.RArr? || !values.RArr? {
        return RDict([]);
      }
      hide DecodeTarget, IndexTarget, AddPair;
      var result: seq<Field> := [];
      for i := 0 to Min(|keys.items|, |values.items|)
        invariant visited == old(visited)
        invariant OutFields(result, decoded)
                  == old(DecodePairs(table, keys.items, values.items, i, visited, depth, decoded))
      {
        var key := DecodeReference(IndexTarget(keys.items[i]), depth + 1);
        var value := DecodeReference(IndexTarget(values.items[i]), depth + 1);
        result := AddPair(table, result, key, value);
      }
      r := RDict(result);
    }

    method DecodeRegular(fields: seq<Field>, depth: nat) returns (r: Raw)
      modifies this
      ensures visited == old(visited)
      ensures var d := old(DecodeFields(table, fields, visited, depth, decoded));
              r == RDict(d.fields) && decoded == d.memo
      decreases Room(table, visited), 2
    {
      hide DecodeTarget, FieldTarget, Put;
      var result: seq<Field> := [];
      for i := 0 to |fields|
        invariant visited == old(visited)
        invariant OutFields(result, decoded) == old(DecodeFields(table, fields[..i], visited, depth, decoded))
      {
        assert fields[..i + 1][..i] == fields[..i];
        if fields[i].key != "$class" {
          var value := DecodeReference(FieldTarget(table, visited, fields[i].value), depth + 1);
          result := Put(result, fields[i].key, value);
        }
      }
      assert fields[..|fields|] == fields;
      r := RDict(result);
    }

    method DecodeRoot(top: Raw) returns (r: Raw)
      requires decoded == map[] && visited == {}
      modifies this
      ensures r == DecodeArchive(table, top) && visited == {}
    {
      if table.objects == [] {
        return RNull;
      }
      match RootIndex(top)
      case Some(index) => r := DecodeObject(index, 0);
      case None => r := DecodeObject(1, 0);
    }
  }
}
