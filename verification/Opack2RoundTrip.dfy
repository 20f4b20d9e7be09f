/** OPACK2 round trip: which values come back, and that encodings delimit themselves. */
module Opack2RoundTrip {
  import opened Bytes
  import opened Wrappers
  import opened OpackFormat
  import Utf8
  import R = XpcRoundTrip

  // ----- which values come back -----

  predicate IsScalar(v: Value) {
    !v.OArr? && !v.ODict?
  }

  predicate DistinctKeys(es: seq<Entry>) {
    forall i, j :: 0 <= i < j < |es| ==> es[i].key != es[j].key
  }

  /** JavaScript objects have distinct keys. */
  predicate JsValue(v: Value)
    decreases v, 0
  {
    match v
    case OArr(items) => AllJs(items)
    case ODict(es) => DistinctKeys(es) && EntriesJs(es)
    case _ => true
  }

  predicate AllJs(items: seq<Value>)
    decreases items, 0
  {
    items == [] || (AllJs(items[..|items| - 1]) && JsValue(items[|items| - 1]))
  }

  predicate EntriesJs(es: seq<Entry>)
    decreases es, 0
  {
    es == [] || (EntriesJs(es[..|es| - 1]) && JsValue(es[|es| - 1].value))
  }

  predicate NoNull(items: seq<Value>) {
    forall i :: 0 <= i < |items| ==> !items[i].ONull?
  }

  /** No string with a lone surrogate, and no null element in an array of 15 elements or more. */
  predicate Clean(v: Value)
    decreases v, 0
  {
    match v
    case OStr(s) => Utf8.NoLoneSurrogate(s)
    case OArr(items) => (|items| >= 15 ==> NoNull(items)) && AllClean(items)
    case ODict(es) => EntriesClean(es)
    case _ => true
  }

  predicate AllClean(items: seq<Value>)
    decreases items, 0
  {
    items == [] || (AllClean(items[..|items| - 1]) && Clean(items[|items| - 1]))
  }

  predicate EntriesClean(es: seq<Entry>)
    decreases es, 0
  {
    es == [] || (EntriesClean(es[..|es| - 1]) && Utf8.NoLoneSurrogate(es[|es| - 1].key) && Clean(es[|es| - 1].value))
  }

  /** No array of exactly 15 elements anywhere: it is written with the variable-array marker and no end. */
  predicate No15(v: Value)
    decreases v, 0
  {
    match v
    case OArr(items) => |items| != 15 && AllNo15(items)
    case ODict(es) => EntriesNo15(es)
    case _ => true
  }

  predicate AllNo15(items: seq<Value>)
    decreases items, 0
  {
    items == [] || (AllNo15(items[..|items| - 1]) && No15(items[|items| - 1]))
  }

  predicate EntriesNo15(es: seq<Entry>)
    decreases es, 0
  {
    es == [] || (EntriesNo15(es[..|es| - 1]) && No15(es[|es| - 1].value))
  }

  predicate Faithful(v: Value) {
    Clean(v) && No15(v)
  }

  // ----- heads -----

  /** Bytes of a scalar, or the marker of a container. */
  function HeadBytes(h: Head): Result<Bytes, Error> {
    match h
    case Scalar(v) => if IsScalar(v) then Encode(v) else Err(BadMarker)
    case FixedArray(n) => if n < 15 then Ok([SMALL_ARRAY_BASE + n]) else Err(TooLarge)
    case VariableArray => Ok([VARIABLE_ARRAY_MARKER])
    case FixedDict(n) => if n < 15 then Ok([SMALL_DICT_BASE + n]) else Err(TooLarge)
    case VariableDict => Ok([VARIABLE_DICT_MARKER])
  }

  /** What reading those bytes gives: strings lose lone surrogates. */
  function Sane(h: Head): Head {
    if h.Scalar? && h.v.OStr? then Scalar(OStr(Utf8.Sanitized(h.v.s))) else h
  }

  lemma FirstByte(b: Bytes, at: nat, e: Bytes)
    requires R.At(b, at, e) && e != []
    ensures at < |b| && b[at] == e[0]
  {
    assert b[at..at + |e|][0] == e[0];
  }

  lemma TakeAt(b: Bytes, at: nat, e: Bytes)
    requires R.At(b, at, e)
    ensures Take(b, at, |e|) == Ok(Read(e, at + |e|))
  {
  }

  lemma RunAt(b: Bytes, at: nat, base: Byte, run: Bytes)
    requires base == STRING_BASE || base == BYTES_BASE
    requires EncodeRun(base, run).Ok? && R.At(b, at, EncodeRun(base, run).value)
    ensures at < |b| && base <= b[at] <= base + 0x23
    ensures TakeRun(b, at + 1, b[at] - base) == Ok(Read(run, at + |EncodeRun(base, run).value|))
  {
    hide R.At, BE, FromBE, Pow256, Take;
    var n := |run|;
    var e := EncodeRun(base, run).value;
    FirstByte(b, at, e);
    if n <= SMALL_LENGTH_MAX {
      R.AtSplit(b, at, [base + n], run);
      TakeAt(b, at + 1, run);
    } else {
      var w := if n <= 0xff then 1 else if n <= 0xffff then 2 else 4;
      var code := if w == 1 then 0x21 else if w == 2 then 0x22 else 0x23;
      OneByteBE(n);
      Pow256Values();
      assert e == [base + code] + BE(n, w) + run;
      LengthAt(b, at, base + code, w, run);
    }
  }

  /** A length in `w` bytes, and what it counts. */
  lemma LengthAt(b: Bytes, at: nat, marker: Byte, w: nat, run: Bytes)
    requires |run| < Pow256(w) && R.At(b, at, [marker] + BE(|run|, w) + run)
    ensures Take(b, at + 1, w) == Ok(Read(BE(|run|, w), at + 1 + w)) && FromBE(BE(|run|, w)) == |run|
    ensures Take(b, at + 1 + w, |run|) == Ok(Read(run, at + 1 + w + |run|))
  {
    hide R.At, BE, FromBE, Pow256, Take;
    var n := |run|;
    R.AtSplit(b, at, [marker] + BE(n, w), run);
    R.AtSplit(b, at, [marker], BE(n, w));
    BERoundTrip(n, w);
    TakeAt(b, at + 1, BE(n, w));
    TakeAt(b, at + 1 + w, run);
  }

  lemma OneByteBE(n: nat)
    ensures n <= 0xff ==> BE(n, 1) == [n]
  {
    assert BE(n / 256, 0) == [];
  }

  lemma NumberAt(b: Bytes, at: nat, n: nat)
    requires EncodeNumber(n).Ok? && R.At(b, at, EncodeNumber(n).value)
    ensures ReadHead(b, at) == Ok(Read(Scalar(OInt(n)), at + |EncodeNumber(n).value|))
  {
    hide R.At, LE, FromLE, Pow256, Take, TakeRun;
    var e := EncodeNumber(n).value;
    FirstByte(b, at, e);
    Pow256Values();
    if SMALL_INT_MAX < n <= 0xff {
      assert e == [INT8_MARKER] + [n];
      R.AtSplit(b, at, [INT8_MARKER], [n]);
      TakeAt(b, at + 1, [n]);
    } else if 0xff < n <= 0xffff_ffff {
      R.AtSplit(b, at, [INT32_MARKER], LE(n, 4));
      TakeAt(b, at + 1, LE(n, 4));
      LERoundTrip(n, 4);
    } else if 0xffff_ffff < n {
      R.AtSplit(b, at, [INT64_MARKER], LE(n, 8));
      TakeAt(b, at + 1, LE(n, 8));
      LERoundTrip(n, 8);
    }
  }

  lemma HeadAt(b: Bytes, at: nat, h: Head)
    requires HeadBytes(h).Ok? && R.At(b, at, HeadBytes(h).value)
    ensures HeadBytes(h).value != []
    ensures ReadHead(b, at) == Ok(Read(Sane(h), at + |HeadBytes(h).value|))
  {
    hide R.At, Take, TakeRun, EncodeRun, EncodeNumber, Utf8.Encode, Utf8.Decode, Utf8.Sanitized;
    if h.Scalar? {
      ScalarAt(b, at, h.v);
    } else {
      FirstByte(b, at, HeadBytes(h).value);
    }
  }

  lemma ScalarAt(b: Bytes, at: nat, v: Value)
    requires IsScalar(v) && Encode(v).Ok? && R.At(b, at, Encode(v).value)
    ensures Encode(v).value != []
    ensures ReadHead(b, at) == Ok(Read(Sane(Scalar(v)), at + |Encode(v).value|))
  {
    hide R.At, Take, TakeRun, EncodeRun, EncodeNumber, Utf8.Encode, Utf8.Decode, Utf8.Sanitized;
    if v.OInt? {
      NumberAt(b, at, v.n);
      NumberBytes(v.n);
    } else if v.OStr? {
      RunAt(b, at, STRING_BASE, Utf8.Encode(v.s));
      Utf8.DecodeEncode(v.s);
      RunBytes(STRING_BASE, Utf8.Encode(v.s));
    } else if v.OBytes? {
      RunAt(b, at, BYTES_BASE, v.bytes);
      RunBytes(BYTES_BASE, v.bytes);
    } else if v.OFloat? {
      FirstByte(b, at, Encode(v).value);
      R.AtSplit(b, at, [FLOAT_MARKER], v.bits);
      TakeAt(b, at + 1, v.bits);
    } else {
      FirstByte(b, at, Encode(v).value);
    }
  }

  lemma NumberBytes(n: nat)
    ensures EncodeNumber(n).Ok? ==> EncodeNumber(n).value != []
  {
  }

  lemma RunBytes(base: Byte, b: Bytes)
    requires base == STRING_BASE || base == BYTES_BASE
    ensures EncodeRun(base, b).Ok? ==> EncodeRun(base, b).value != []
  {
  }

  // ----- decoding a faithful value, whatever follows -----

  lemma SaneString(s: Text)
    requires Utf8.NoLoneSurrogate(s)
    ensures Utf8.Sanitized(s) == s
  {
    Utf8.SanitizedExactlyWhen(s);
  }

  lemma {:induction false} DecodeAt(b: Bytes, at: nat, v: Value)
    requires Encode(v).Ok? && JsValue(v) && Clean(v) && No15(v) && R.At(b, at, Encode(v).value)
    ensures Decode(b, at) == Ok(Read(v, at + |Encode(v).value|))
    decreases v, 2
  {
    hide R.At, ReadHead, Utf8.Encode, Utf8.Sanitized, EncodeRun, EncodeNumber, Utf8.NoLoneSurrogate;
    hide ArrayMarker, ArrayEnd, DictMarker, DictEnd, DecodeFixedArray, DecodeVariableArray, DecodeFixedDict,
        DecodeVariableDict;
    if v.OArr? {
      ArrayAt(b, at, v.items);
    } else if v.ODict? {
      DictAt(b, at, v.entries);
    } else {
      ScalarAt(b, at, v);
      if v.OStr? {
        SaneString(v.s);
      }
    }
  }

  lemma {:induction false} ArrayAt(b: Bytes, at: nat, items: seq<Value>)
    requires Encode(OArr(items)).Ok? && AllJs(items) && AllClean(items) && AllNo15(items)
    requires |items| != 15 && (|items| >= 15 ==> NoNull(items))
    requires R.At(b, at, Encode(OArr(items)).value)
    ensures Decode(b, at) == Ok(Read(OArr(items), at + |Encode(OArr(items)).value|))
    decreases items, 1
  {
    hide R.At, ReadHead, EncodeItems, DecodeFixedArray, DecodeVariableArray, AllJs, AllClean, AllNo15, NoNull;
    var n := |items|;
    var parts := EncodeItems(items).value;
    R.AtSplit(b, at, [ArrayMarker(n)] + parts, ArrayEnd(n));
    R.AtSplit(b, at, [ArrayMarker(n)], parts);
    if n < 15 {
      HeadAt(b, at, FixedArray(n));
      ItemsAt(b, at + 1, items);
    } else {
      HeadAt(b, at, VariableArray);
      assert items[..n] == items;
      VariableItemsAt(b, at + 1, items, n);
      HeadAt(b, at + 1 + |parts|, Scalar(ONull));
      NullEnds(b, at + 1 + |parts|, items);
    }
  }

  lemma NullEnds(b: Bytes, at: nat, result: seq<Value>)
    requires ReadHead(b, at) == Ok(Read(Scalar(ONull), at + 1))
    ensures DecodeVariableArray(b, at, result) == Ok(Read(result, at + 1))
  {
    hide ReadHead;
  }

  lemma {:induction false} ItemsAt(b: Bytes, at: nat, items: seq<Value>)
    requires EncodeItems(items).Ok? && AllJs(items) && AllClean(items) && AllNo15(items)
    requires R.At(b, at, EncodeItems(items).value)
    ensures DecodeFixedArray(b, at, |items|) == Ok(Read(items, at + |EncodeItems(items).value|))
    decreases items, 0
  {
    hide R.At, Encode, Decode, JsValue, Clean, No15;
    if items != [] {
      var init, last := items[..|items| - 1], items[|items| - 1];
      R.AtSplit(b, at, EncodeItems(init).value, Encode(last).value);
      ItemsAt(b, at, init);
      DecodeAt(b, at + |EncodeItems(init).value|, last);
      assert items == init + [last];
    }
  }

  /** The loop over a variable array has read the first `k` elements. */
  lemma {:induction false} VariableItemsAt(b: Bytes, at: nat, items: seq<Value>, k: nat)
    requires k <= |items| && EncodeItems(items[..k]).Ok? && NoNull(items)
    requires AllJs(items[..k]) && AllClean(items[..k]) && AllNo15(items[..k])
    requires R.At(b, at, EncodeItems(items[..k]).value)
    ensures DecodeVariableArray(b, at, [])
            == DecodeVariableArray(b, at + |EncodeItems(items[..k]).value|, items[..k])
    decreases items[..k], 0
  {
    hide R.At, Encode, Decode, JsValue, Clean, No15;
    if k > 0 {
      var now := items[..k];
      var init, last := now[..k - 1], now[k - 1];
      assert init == items[..k - 1] && now == init + [last];
      R.AtSplit(b, at, EncodeItems(init).value, Encode(last).value);
      VariableItemsAt(b, at, items, k - 1);
      DecodeAt(b, at + |EncodeItems(init).value|, last);
    }
  }

  lemma {:induction false} DictAt(b: Bytes, at: nat, es: seq<Entry>)
    requires Encode(ODict(es)).Ok? && DistinctKeys(es) && EntriesJs(es) && EntriesClean(es) && EntriesNo15(es)
    requires R.At(b, at, Encode(ODict(es)).value)
    ensures Decode(b, at) == Ok(Read(ODict(es), at + |Encode(ODict(es)).value|))
    decreases es, 1
  {
    hide R.At, ReadHead, EncodeEntries, DecodeFixedDict, DecodeVariableDict, EntriesJs, EntriesClean, EntriesNo15,
        DistinctKeys;
    var n := |es|;
    var parts := EncodeEntries(es).value;
    R.AtSplit(b, at, [DictMarker(n)] + parts, DictEnd(n));
    R.AtSplit(b, at, [DictMarker(n)], parts);
    assert es[..n] == es;
    if n < 15 {
      HeadAt(b, at, FixedDict(n));
      EntriesAt(b, at + 1, es, n);
    } else {
      HeadAt(b, at, VariableDict);
      VariableEntriesAt(b, at + 1, es, n);
      var end := at + 1 + |parts|;
      assert DictEnd(n) == [OPACK2_NULL] + [OPACK2_NULL];
      R.AtSplit(b, end, [OPACK2_NULL], [OPACK2_NULL]);
      HeadAt(b, end, Scalar(ONull));
      HeadAt(b, end + 1, Scalar(ONull));
      NullsEnd(b, end, es);
    }
  }

  lemma NullsEnd(b: Bytes, at: nat, result: seq<Entry>)
    requires ReadHead(b, at) == Ok(Read(Scalar(ONull), at + 1))
    requires ReadHead(b, at + 1) == Ok(Read(Scalar(ONull), at + 2))
    ensures DecodeVariableDict(b, at, result) == Ok(Read(result, at + 2))
  {
    hide ReadHead;
  }

  lemma {:induction false} PutFresh(es: seq<Entry>, key: Text, value: Value)
    requires forall i :: 0 <= i < |es| ==> es[i].key != key
    ensures Put(es, key, value) == es + [Entry(key, value)]
  {
    if es != [] {
      PutFresh(es[1..], key, value);
    }
  }

  /** One key and its value, anywhere in a dictionary. */
  lemma {:induction false} EntryAt(b: Bytes, at: nat, es: seq<Entry>, k: nat)
    requires k < |es| && DistinctKeys(es) && Utf8.NoLoneSurrogate(es[k].key)
    requires EncodeRun(STRING_BASE, Utf8.Encode(es[k].key)).Ok? && Encode(es[k].value).Ok?
    requires JsValue(es[k].value) && Clean(es[k].value) && No15(es[k].value)
    requires R.At(b, at, EncodeRun(STRING_BASE, Utf8.Encode(es[k].key)).value + Encode(es[k].value).value)
    ensures var key := Decode(b, at);
            && key == Ok(Read(OStr(es[k].key), at + |EncodeRun(STRING_BASE, Utf8.Encode(es[k].key)).value|))
            && Decode(b, key.value.next) == Ok(Read(es[k].value, key.value.next + |Encode(es[k].value).value|))
    ensures Put(es[..k], es[k].key, es[k].value) == es[..k + 1]
    decreases es[k], 3
  {
    hide R.At, JsValue, Clean, No15, EncodeRun, Utf8.Encode, Utf8.Sanitized, Utf8.NoLoneSurrogate, Put;
    hide DecodeFixedArray, DecodeVariableArray, DecodeFixedDict, DecodeVariableDict, ReadHead;
    R.AtSplit(b, at, EncodeRun(STRING_BASE, Utf8.Encode(es[k].key)).value, Encode(es[k].value).value);
    ScalarAt(b, at, OStr(es[k].key));
    SaneString(es[k].key);
    DecodeAt(b, at + |EncodeRun(STRING_BASE, Utf8.Encode(es[k].key)).value|, es[k].value);
    PutFresh(es[..k], es[k].key, es[k].value);
    assert es[..k + 1] == es[..k] + [es[k]];
  }

  lemma {:induction false} EntriesAt(b: Bytes, at: nat, es: seq<Entry>, k: nat)
    requires k <= |es| && EncodeEntries(es[..k]).Ok? && DistinctKeys(es)
    requires EntriesJs(es[..k]) && EntriesClean(es[..k]) && EntriesNo15(es[..k])
    requires R.At(b, at, EncodeEntries(es[..k]).value)
    ensures DecodeFixedDict(b, at, k) == Ok(Read(es[..k], at + |EncodeEntries(es[..k]).value|))
    decreases es[..k], 0
  {
    hide R.At, Encode, Decode, JsValue, Clean, No15, EncodeRun, Utf8.Encode, Utf8.NoLoneSurrogate, Put, DistinctKeys;
    if k > 0 {
      var now := es[..k];
      assert now[..k - 1] == es[..k - 1] && now[k - 1] == es[k - 1];
      SplitLastEntry(b, at, es, k);
      EntriesAt(b, at, es, k - 1);
      EntryAt(b, at + |EncodeEntries(es[..k - 1]).value|, es, k - 1);
    }
  }

  lemma SplitLastEntry(b: Bytes, at: nat, es: seq<Entry>, k: nat)
    requires 0 < k <= |es| && EncodeEntries(es[..k]).Ok? && R.At(b, at, EncodeEntries(es[..k]).value)
    ensures EncodeEntries(es[..k - 1]).Ok? && Encode(es[k - 1].value).Ok?
    ensures EncodeRun(STRING_BASE, Utf8.Encode(es[k - 1].key)).Ok?
    ensures var key, value := EncodeRun(STRING_BASE, Utf8.Encode(es[k - 1].key)).value, Encode(es[k - 1].value).value;
            var init := EncodeEntries(es[..k - 1]).value;
            && R.At(b, at, init) && R.At(b, at + |init|, key + value)
            && |EncodeEntries(es[..k]).value| == |init| + |key| + |value|
  {
    hide R.At, Encode, EncodeRun, Utf8.Encode;
    var now := es[..k];
    assert now[..k - 1] == es[..k - 1] && now[k - 1] == es[k - 1];
    var key, value := EncodeRun(STRING_BASE, Utf8.Encode(es[k - 1].key)).value, Encode(es[k - 1].value).value;
    var init := EncodeEntries(es[..k - 1]).value;
    assert init + key + value == init + (key + value);
    R.AtSplit(b, at, init, key + value);
  }

  lemma {:induction false} VariableEntriesAt(b: Bytes, at: nat, es: seq<Entry>, k: nat)
    requires k <= |es| && EncodeEntries(es[..k]).Ok? && DistinctKeys(es)
    requires EntriesJs(es[..k]) && EntriesClean(es[..k]) && EntriesNo15(es[..k])
    requires R.At(b, at, EncodeEntries(es[..k]).value)
    ensures DecodeVariableDict(b, at, [])
            == DecodeVariableDict(b, at + |EncodeEntries(es[..k]).value|, es[..k])
    decreases es[..k], 0
  {
    hide R.At, Encode, Decode, JsValue, Clean, No15, EncodeRun, Utf8.Encode, Utf8.NoLoneSurrogate, Put, DistinctKeys;
    if k > 0 {
      var now := es[..k];
      assert now[..k - 1] == es[..k - 1] && now[k - 1] == es[k - 1];
      SplitLastEntry(b, at, es, k);
      VariableEntriesAt(b, at, es, k - 1);
      EntryAt(b, at + |EncodeEntries(es[..k - 1]).value|, es, k - 1);
    }
  }

  // ----- how much a decoded value must have consumed -----

  /** Heads a decoder must read to produce `v`: every array of 15 or more costs its terminator. */
  function Cost(v: Value): nat
    decreases v, 0
  {
    match v
    case OArr(items) => CostAll(items) + (if |items| < 15 then 1 else 2)
    case ODict(es) => CostEntries(es) + (if |es| < 15 then 1 else 3)
    case _ => 1
  }

  function CostAll(items: seq<Value>): nat
    decreases items, 0
  {
    if items == [] then 0 else CostAll(items[..|items| - 1]) + Cost(items[|items| - 1])
  }

  function CostEntries(es: seq<Entry>): nat
    decreases es, 0
  {
    if es == [] then 0 else CostEntries(es[..|es| - 1]) + 1 + Cost(es[|es| - 1].value)
  }

  /** The heads the encoder writes. */
  function Heads(v: Value): seq<Head>
    decreases v, 0
  {
    match v
    case OArr(items) =>
      [if |items| < 15 then FixedArray(|items|) else VariableArray] + HeadsAll(items)
      + (if |items| <= 15 then [] else [Scalar(ONull)])
    case ODict(es) =>
      [if |es| < 15 then FixedDict(|es|) else VariableDict] + HeadsEntries(es)
      + (if |es| < 15 then [] else [Scalar(ONull), Scalar(ONull)])
    case _ => [Scalar(v)]
  }

  function HeadsAll(items: seq<Value>): seq<Head>
    decreases items, 0
  {
    if items == [] then [] else HeadsAll(items[..|items| - 1]) + Heads(items[|items| - 1])
  }

  function HeadsEntries(es: seq<Entry>): seq<Head>
    decreases es, 0
  {
    if es == [] then []
    else HeadsEntries(es[..|es| - 1]) + [Scalar(OStr(es[|es| - 1].key))] + Heads(es[|es| - 1].value)
  }

  /** An encoding has no more heads than its value costs, and as many exactly when no array has 15 elements. */
  lemma {:induction false} HeadsWithinCost(v: Value)
    ensures |Heads(v)| <= Cost(v) && (|Heads(v)| == Cost(v) ==> No15(v))
    decreases v, 1
  {
    match v
    case OArr(items) => AllWithinCost(items);
    case ODict(es) => EntriesWithinCost(es);
    case _ =>
  }

  lemma {:induction false} AllWithinCost(items: seq<Value>)
    ensures |HeadsAll(items)| <= CostAll(items) && (|HeadsAll(items)| == CostAll(items) ==> AllNo15(items))
    decreases items, 0
  {
    hide Heads, Cost, No15;
    if items != [] {
      AllWithinCost(items[..|items| - 1]);
      HeadsWithinCost(items[|items| - 1]);
    }
  }

  lemma {:induction false} EntriesWithinCost(es: seq<Entry>)
    ensures |HeadsEntries(es)| <= CostEntries(es) && (|HeadsEntries(es)| == CostEntries(es) ==> EntriesNo15(es))
    decreases es, 0
  {
    hide Heads, Cost, No15;
    if es != [] {
      EntriesWithinCost(es[..|es| - 1]);
      HeadsWithinCost(es[|es| - 1].value);
    }
  }

  predicate HeadsOk(hs: seq<Head>) {
    forall i :: 0 <= i < |hs| ==> HeadBytes(hs[i]).Ok?
  }

  /** The bytes of a list of heads. */
  function HeadsBytes(hs: seq<Head>): Bytes
    requires HeadsOk(hs)
  {
    if hs == [] then []
    else
      assert HeadsOk(hs[..|hs| - 1]);
      HeadsBytes(hs[..|hs| - 1]) + HeadBytes(hs[|hs| - 1]).value
  }

  lemma {:induction false} HeadsBytesAppend(a: seq<Head>, c: seq<Head>)
    requires HeadsOk(a) && HeadsOk(c)
    ensures HeadsOk(a + c) && HeadsBytes(a + c) == HeadsBytes(a) + HeadsBytes(c)
  {
    hide HeadBytes;
    if c == [] {
      assert a + c == a;
    } else {
      var init := c[..|c| - 1];
      HeadsBytesAppend(a, init);
      assert (a + c)[..|a + c| - 1] == a + init;
    }
  }

  lemma OneHead(h: Head)
    requires HeadBytes(h).Ok?
    ensures HeadsOk([h]) && HeadsBytes([h]) == HeadBytes(h).value
  {
    var hs := [h];
    assert hs[..0] == [] && HeadsBytes(hs[..0]) == [];
  }

  /** The encoder writes the bytes of its heads. */
  lemma {:induction false} EncodeIsHeads(v: Value)
    requires Encode(v).Ok?
    ensures HeadsOk(Heads(v)) && HeadsBytes(Heads(v)) == Encode(v).value
    decreases v, 1
  {
    hide EncodeRun, EncodeNumber, HeadsBytes;
    match v
    case OArr(items) =>
      ItemsAreHeads(items);
      ArrayHeads(items);
    case ODict(es) =>
      EntriesAreHeads(es);
      DictHeads(es);
    case _ => OneHead(Scalar(v));
  }

  lemma ArrayHeads(items: seq<Value>)
    requires HeadsOk(HeadsAll(items)) && EncodeItems(items).Ok?
             && HeadsBytes(HeadsAll(items)) == EncodeItems(items).value
    ensures HeadsOk(Heads(OArr(items))) && HeadsBytes(Heads(OArr(items))) == Encode(OArr(items)).value
  {
    hide HeadsBytes, HeadsAll, EncodeItems;
    var n := |items|;
    var marker := [if n < 15 then FixedArray(n) else VariableArray];
    OneHead(marker[0]);
    HeadsBytesAppend(marker, HeadsAll(items));
    if n > 15 {
      OneHead(Scalar(ONull));
      HeadsBytesAppend(marker + HeadsAll(items), [Scalar(ONull)]);
    } else {
      assert Heads(OArr(items)) == marker + HeadsAll(items);
      assert Encode(OArr(items)).value == [ArrayMarker(n)] + EncodeItems(items).value;
    }
  }

  lemma DictHeads(es: seq<Entry>)
    requires HeadsOk(HeadsEntries(es)) && EncodeEntries(es).Ok?
             && HeadsBytes(HeadsEntries(es)) == EncodeEntries(es).value
    ensures HeadsOk(Heads(ODict(es))) && HeadsBytes(Heads(ODict(es))) == Encode(ODict(es)).value
  {
    hide HeadsBytes, HeadsEntries, EncodeEntries;
    var n := |es|;
    var marker := [if n < 15 then FixedDict(n) else VariableDict];
    OneHead(marker[0]);
    HeadsBytesAppend(marker, HeadsEntries(es));
    if n >= 15 {
      OneHead(Scalar(ONull));
      HeadsBytesAppend([Scalar(ONull)], [Scalar(ONull)]);
      assert [Scalar(ONull)] + [Scalar(ONull)] == [Scalar(ONull), Scalar(ONull)];
      HeadsBytesAppend(marker + HeadsEntries(es), [Scalar(ONull), Scalar(ONull)]);
      assert DictEnd(n) == [OPACK2_NULL] + [OPACK2_NULL];
    } else {
      assert Heads(ODict(es)) == marker + HeadsEntries(es);
      assert Encode(ODict(es)).value == [DictMarker(n)] + EncodeEntries(es).value;
    }
  }

  lemma {:induction false} ItemsAreHeads(items: seq<Value>)
    requires EncodeItems(items).Ok?
    ensures HeadsOk(HeadsAll(items)) && HeadsBytes(HeadsAll(items)) == EncodeItems(items).value
    decreases items, 0
  {
    hide Encode, Heads;
    if items != [] {
      var init, last := items[..|items| - 1], items[|items| - 1];
      ItemsAreHeads(init);
      EncodeIsHeads(last);
      HeadsBytesAppend(HeadsAll(init), Heads(last));
    }
  }

  lemma {:induction false} EntriesAreHeads(es: seq<Entry>)
    requires EncodeEntries(es).Ok?
    ensures HeadsOk(HeadsEntries(es)) && HeadsBytes(HeadsEntries(es)) == EncodeEntries(es).value
    decreases es, 0
  {
    hide Heads, HeadsBytes, EncodeRun, Utf8.Encode;
    if es != [] {
      var init, last := es[..|es| - 1], es[|es| - 1];
      EntriesAreHeads(init);
      EncodeIsHeads(last.value);
      KeyHead(last.key);
      HeadsBytesAppend(HeadsEntries(init), [Scalar(OStr(last.key))]);
      HeadsBytesAppend(HeadsEntries(init) + [Scalar(OStr(last.key))], Heads(last.value));
    } else {
      assert HeadsBytes([]) == [] by {
        NoHeads();
      }
    }
  }

  lemma NoHeads()
    ensures HeadsBytes([]) == []
  {
  }

  lemma KeyHead(key: Text)
    requires EncodeRun(STRING_BASE, Utf8.Encode(key)).Ok?
    ensures HeadsOk([Scalar(OStr(key))])
    ensures HeadsBytes([Scalar(OStr(key))]) == EncodeRun(STRING_BASE, Utf8.Encode(key)).value
  {
    hide EncodeRun;
    OneHead(Scalar(OStr(key)));
  }

  // ----- decoding consumes whole heads, and enough of them -----

  /** Where head `i` starts. */
  function Pos(hs: seq<Head>, i: nat): nat
    requires HeadsOk(hs) && i <= |hs|
  {
    assert HeadsOk(hs[..i]);
    |HeadsBytes(hs[..i])|
  }

  lemma HeadInPlace(hs: seq<Head>, i: nat)
    requires HeadsOk(hs) && i < |hs|
    ensures HeadBytes(hs[i]).Ok? && R.At(HeadsBytes(hs), Pos(hs, i), HeadBytes(hs[i]).value)
    ensures Pos(hs, i + 1) == Pos(hs, i) + |HeadBytes(hs[i]).value|
  {
    hide HeadBytes, HeadsBytes, R.At;
    var a, c := hs[..i], hs[i + 1..];
    OneHead(hs[i]);
    HeadsBytesAppend(a, [hs[i]]);
    HeadsBytesAppend(a + [hs[i]], c);
    assert hs == a + [hs[i]] + c && hs[..i + 1] == a + [hs[i]];
    R.WholeAt(HeadsBytes(a + [hs[i]]), HeadsBytes(c));
    R.AtSplit(HeadsBytes(hs), 0, HeadsBytes(a), HeadBytes(hs[i]).value);
  }

  lemma EndPos(hs: seq<Head>)
    requires HeadsOk(hs)
    ensures Pos(hs, |hs|) == |HeadsBytes(hs)|
  {
    assert hs[..|hs|] == hs;
  }

  lemma {:induction false} PosMono(hs: seq<Head>, i: nat, j: nat)
    requires HeadsOk(hs) && i <= j <= |hs|
    ensures Pos(hs, i) + (j - i) <= Pos(hs, j)
    decreases j - i
  {
    hide Pos, HeadBytes, R.At;
    if i < j {
      PosMono(hs, i, j - 1);
      HeadInPlace(hs, j - 1);
      HeadAt(HeadsBytes(hs), Pos(hs, j - 1), hs[j - 1]);
    }
  }

  lemma {:induction false} SanitizedSane(s: Text)
    ensures Utf8.NoLoneSurrogate(Utf8.Sanitized(s))
  {
    if s != [] {
      var n := Utf8.FirstWidth(s);
      var rest := Utf8.Sanitized(s[n..]);
      SanitizedSane(s[n..]);
      var head := if Utf8.IsSurrogate(Utf8.FirstPoint(s)) then [Utf8.REPLACEMENT] else s[..n];
      SaneHead(s, head, rest);
    }
  }

  lemma SaneHead(s: Text, head: Text, rest: Text)
    requires s != [] && Utf8.NoLoneSurrogate(rest)
    requires head == if Utf8.IsSurrogate(Utf8.FirstPoint(s)) then [Utf8.REPLACEMENT] else s[..Utf8.FirstWidth(s)]
    ensures Utf8.NoLoneSurrogate(head + rest)
  {
    var t := head + rest;
    assert Utf8.FirstWidth(t) == |head|;
    assert t[|head|..] == rest;
  }

  /** Reading one head of a list of heads. */
  lemma ReadInPlace(hs: seq<Head>, i: nat)
    requires HeadsOk(hs) && i < |hs|
    ensures ReadHead(HeadsBytes(hs), Pos(hs, i)) == Ok(Read(Sane(hs[i]), Pos(hs, i + 1)))
  {
    hide R.At, HeadBytes, ReadHead, Pos, HeadsBytes, Sane;
    HeadInPlace(hs, i);
    HeadAt(HeadsBytes(hs), Pos(hs, i), hs[i]);
  }

  lemma NothingLeft(hs: seq<Head>)
    requires HeadsOk(hs)
    ensures Decode(HeadsBytes(hs), Pos(hs, |hs|)).Err?
  {
    EndPos(hs);
  }

  lemma {:induction false} PutCost(es: seq<Entry>, key: Text, value: Value)
    ensures CostEntries(Put(es, key, value)) <= CostEntries(es) + 1 + Cost(value)
    ensures |Put(es, key, value)| <= |es| + 1
    ensures EntriesClean(es) && Utf8.NoLoneSurrogate(key) && Clean(value) ==> EntriesClean(Put(es, key, value))
    decreases |es|
  {
    hide Cost, Clean, Utf8.NoLoneSurrogate;
    if es == [] {
      assert [Entry(key, value)][..0] == [];
    } else {
      CostFront(es);
      if es[0].key == key {
        CostFront([Entry(key, value)] + es[1..]);
        assert ([Entry(key, value)] + es[1..])[1..] == es[1..];
      } else {
        PutCost(es[1..], key, value);
        CostFront([es[0]] + Put(es[1..], key, value));
        assert ([es[0]] + Put(es[1..], key, value))[1..] == Put(es[1..], key, value);
      }
    }
  }

  /** The sums, peeled from the front. */
  lemma {:induction false} CostFront(es: seq<Entry>)
    requires es != []
    ensures CostEntries(es) == 1 + Cost(es[0].value) + CostEntries(es[1..])
    ensures EntriesClean(es) <==> Utf8.NoLoneSurrogate(es[0].key) && Clean(es[0].value) && EntriesClean(es[1..])
  {
    hide Cost, Clean, Utf8.NoLoneSurrogate;
    if |es| == 1 {
      assert es[..0] == [] && es[1..] == [];
    } else {
      var init := es[..|es| - 1];
      CostFront(init);
      assert init[1..] == es[1..][..|es| - 2];
    }
  }

  /**
   * Decoding from the start of a head ends at the start of a head, after at least as many heads as the
   * value costs, and what it produces is clean.
   */
  lemma {:induction false} Consumes(hs: seq<Head>, i: nat) returns (j: nat)
    requires HeadsOk(hs) && i <= |hs| && Decode(HeadsBytes(hs), Pos(hs, i)).Ok?
    ensures var r := Decode(HeadsBytes(hs), Pos(hs, i)).value;
            i < j <= |hs| && r.next == Pos(hs, j) && j - i >= Cost(r.value) && Clean(r.value)
    decreases |hs| - i, 0
  {
    hide Pos, HeadBytes, HeadsBytes, ReadHead, HeadsOk, DecodeFixedArray, DecodeVariableArray, DecodeFixedDict,
        DecodeVariableDict;
    hide Utf8.NoLoneSurrogate, Utf8.Sanitized;
    if i == |hs| {
      NothingLeft(hs);
      assert false;
    } else {
      ReadInPlace(hs, i);
      match hs[i]
      case Scalar(v) =>
        j := i + 1;
        ScalarClean(hs, i);
      case FixedArray(n) =>
        FixedHead(hs, i);
        j := ConsumesItems(hs, i + 1, n);
      case VariableArray =>
        j := ConsumesVariable(hs, i + 1, []);
      case FixedDict(n) =>
        FixedHead(hs, i);
        j := ConsumesEntries(hs, i + 1, n);
      case VariableDict =>
        j := ConsumesVariableDict(hs, i + 1, []);
    }
  }

  lemma ScalarClean(hs: seq<Head>, i: nat)
    requires HeadsOk(hs) && i < |hs| && hs[i].Scalar?
    ensures Sane(hs[i]).Scalar? && Clean(Sane(hs[i]).v) && Cost(Sane(hs[i]).v) == 1
  {
    assert HeadBytes(hs[i]).Ok?;
    if hs[i].v.OStr? {
      SanitizedSane(hs[i].v.s);
    }
  }

  lemma FixedHead(hs: seq<Head>, i: nat)
    requires HeadsOk(hs) && i < |hs| && (hs[i].FixedArray? || hs[i].FixedDict?)
    ensures hs[i].n < 15
  {
    assert HeadBytes(hs[i]).Ok?;
  }

  lemma {:induction false} ConsumesItems(hs: seq<Head>, i: nat, n: nat) returns (j: nat)
    requires HeadsOk(hs) && i <= |hs| && DecodeFixedArray(HeadsBytes(hs), Pos(hs, i), n).Ok?
    ensures var r := DecodeFixedArray(HeadsBytes(hs), Pos(hs, i), n).value;
            && i <= j <= |hs| && r.next == Pos(hs, j) && |r.value| == n
            && j - i >= CostAll(r.value) && AllClean(r.value)
    decreases |hs| - i, n + 1
  {
    hide Pos, HeadsBytes, HeadsOk, Decode, Cost, Clean;
    if n == 0 {
      j := i;
    } else {
      var m := ConsumesItems(hs, i, n - 1);
      var r := DecodeFixedArray(HeadsBytes(hs), Pos(hs, i), n).value.value;
      assert r[..n - 1] == DecodeFixedArray(HeadsBytes(hs), Pos(hs, i), n - 1).value.value;
      j := Consumes(hs, m);
    }
  }

  lemma {:induction false} ConsumesVariable(hs: seq<Head>, i: nat, result: seq<Value>) returns (j: nat)
    requires HeadsOk(hs) && i <= |hs| && DecodeVariableArray(HeadsBytes(hs), Pos(hs, i), result).Ok?
    requires AllClean(result) && NoNull(result)
    ensures var r := DecodeVariableArray(HeadsBytes(hs), Pos(hs, i), result).value;
            && i <= j <= |hs| && r.next == Pos(hs, j) && AllClean(r.value) && NoNull(r.value)
            && j - i + CostAll(result) >= CostAll(r.value) + 1
    decreases |hs| - i, 1
  {
    hide Pos, HeadsBytes, HeadsOk, Decode, Cost, Clean;
    j := Consumes(hs, i);
    var v := Decode(HeadsBytes(hs), Pos(hs, i)).value.value;
    NullCosts(v);
    if !v.ONull? {
      assert (result + [v])[..|result|] == result;
      j := ConsumesVariable(hs, j, result + [v]);
    }
  }

  lemma NullCosts(v: Value)
    ensures Cost(v) >= 1
  {
  }

  lemma {:induction false} ConsumesEntries(hs: seq<Head>, i: nat, n: nat) returns (j: nat)
    requires HeadsOk(hs) && i <= |hs| && DecodeFixedDict(HeadsBytes(hs), Pos(hs, i), n).Ok?
    ensures var r := DecodeFixedDict(HeadsBytes(hs), Pos(hs, i), n).value;
            && i <= j <= |hs| && r.next == Pos(hs, j) && |r.value| <= n
            && j - i >= CostEntries(r.value) && EntriesClean(r.value)
    decreases |hs| - i, n + 1
  {
    hide Pos, HeadsBytes, HeadsOk, Decode, Cost, Put, CostEntries, EntriesClean, Clean;
    if n == 0 {
      j := i;
      NoEntries();
    } else {
      var m := ConsumesEntries(hs, i, n - 1);
      var init := DecodeFixedDict(HeadsBytes(hs), Pos(hs, i), n - 1).value.value;
      var k := Consumes(hs, m);
      var key := Decode(HeadsBytes(hs), Pos(hs, m)).value.value;
      NullCosts(key);
      j := Consumes(hs, k);
      CleanKey(key);
      PutCost(init, key.s, Decode(HeadsBytes(hs), Pos(hs, k)).value.value);
    }
  }

  lemma CleanKey(key: Value)
    requires key.OStr? && Clean(key)
    ensures Utf8.NoLoneSurrogate(key.s)
  {
  }

  lemma NoEntries()
    ensures CostEntries([]) == 0 && EntriesClean([])
  {
  }

  lemma {:induction false} ConsumesVariableDict(hs: seq<Head>, i: nat, result: seq<Entry>) returns (j: nat)
    requires HeadsOk(hs) && i <= |hs| && DecodeVariableDict(HeadsBytes(hs), Pos(hs, i), result).Ok?
    requires EntriesClean(result)
    ensures var r := DecodeVariableDict(HeadsBytes(hs), Pos(hs, i), result).value;
            && i <= j <= |hs| && r.next == Pos(hs, j) && EntriesClean(r.value)
            && j - i + CostEntries(result) >= CostEntries(r.value) + 2
    decreases |hs| - i, 1
  {
    hide Pos, HeadsBytes, HeadsOk, Decode, Cost, Put, CostEntries, EntriesClean, Clean;
    var k := Consumes(hs, i);
    var key := Decode(HeadsBytes(hs), Pos(hs, i)).value.value;
    j := Consumes(hs, k);
    var value := Decode(HeadsBytes(hs), Pos(hs, k)).value.value;
    NullCosts(key);
    NullCosts(value);
    if !(key.ONull? && value.ONull?) {
      CleanKey(key);
      PutCost(result, key.s, value);
      j := ConsumesVariableDict(hs, j, Put(result, key.s, value));
    }
  }

  // ----- main results -----

  /**
   * `loads(dumps(v))` is `v` exactly when no array in `v` has 15 elements, no longer array holds a null,
   * and no string holds a lone surrogate.
   */
  lemma RoundTripExactlyWhen(v: Value)
    requires Encode(v).Ok? && JsValue(v)
    ensures Loads(Encode(v).value) == Ok(v) <==> Faithful(v)
  {
    hide Encode, Decode, Clean, No15, JsValue, R.At, Heads, Cost, Pos;
    var b := Encode(v).value;
    if Faithful(v) {
      R.WholeAt(b, []);
      assert b + [] == b;
      DecodeAt(b, 0, v);
    }
    if Loads(b) == Ok(v) {
      EncodeIsHeads(v);
      var hs := Heads(v);
      StartPos(hs);
      EndPos(hs);
      var j := Consumes(hs, 0);
      PosMono(hs, j, |hs|);
      HeadsWithinCost(v);
    }
  }

  lemma StartPos(hs: seq<Head>)
    requires HeadsOk(hs)
    ensures Pos(hs, 0) == 0
  {
    assert hs[..0] == [];
  }

  /** Decoding stops at the end of the encoding, whatever follows it. */
  lemma SelfDelimiting(v: Value, tail: Bytes)
    requires Encode(v).Ok? && JsValue(v) && Faithful(v)
    ensures Decode(Encode(v).value + tail, 0) == Ok(Read(v, |Encode(v).value|))
  {
    hide Encode, Decode, Clean, No15, JsValue, R.At;
    R.WholeAt(Encode(v).value, tail);
    DecodeAt(Encode(v).value + tail, 0, v);
  }

  /** No encoding is a proper prefix of another, and different values have different encodings. */
  lemma PrefixFree(v: Value, w: Value)
    requires Encode(v).Ok? && JsValue(v) && Faithful(v) && Encode(w).Ok? && JsValue(w) && Faithful(w)
    requires Encode(v).value <= Encode(w).value
    ensures v == w
  {
    hide Encode, Decode, Faithful, JsValue;
    var a, c := Encode(v).value, Encode(w).value;
    assert c == a + c[|a|..];
    SelfDelimiting(v, c[|a|..]);
    SelfDelimiting(w, []);
    assert c + [] == c;
  }

  /** Fifteen numbers do not come back: the array is written without an end. */
  lemma FifteenNumbersAreLost()
    ensures var v := OArr(seq(15, i => OInt(1)));
            Encode(v).Ok? && Loads(Encode(v).value) != Ok(v)
  {
    var v := OArr(seq(15, i => OInt(1)));
    OnesEncode(15);
    OnesJs(15);
    RoundTripExactlyWhen(v);
  }

  lemma {:induction false} OnesEncode(n: nat)
    ensures EncodeItems(seq(n, i => OInt(1))).Ok?
  {
    if n > 0 {
      OnesEncode(n - 1);
      assert seq(n, i => OInt(1))[..n - 1] == seq(n - 1, i => OInt(1));
    }
  }

  lemma {:induction false} OnesJs(n: nat)
    ensures AllJs(seq(n, i => OInt(1)))
  {
    if n > 0 {
      OnesJs(n - 1);
      assert seq(n, i => OInt(1))[..n - 1] == seq(n - 1, i => OInt(1));
    }
  }
}
