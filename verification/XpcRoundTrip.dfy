/** Decoding an encoded XPC message: alignment, exact consumption, and what comes back. */
module XpcRoundTrip {
  import opened Bytes
  import opened Wrappers
  import opened XpcFormat
  import Utf8

  // ----- what comes back -----

  function CutAtNul(t: Text): Text {
    if t == [] || t[0] == 0 then [] else [t[0]] + CutAtNul(t[1..])
  }

  /** Big integers become numbers, UUIDs hexadecimal strings, and strings end at their first NUL. */
  function Norm(round: Rounding, v: Xpc): Xpc
    decreases v, 0
  {
    match v
    case XInt(n) => XInt(round(n))
    case XBig(n) => XInt(round(n))
    case XStr(s) => XStr(CutAtNul(Utf8.Sanitized(s)))
    case XUuid(id) => XStr(Hex(id))
    case XArr(items) => XArr(NormItems(round, items))
    case XDict(es) => XDict(NormEntries(round, es))
    case _ => v
  }

  function NormItems(round: Rounding, items: seq<Xpc>): (r: seq<Xpc>)
    ensures |r| == |items|
    decreases items, 0
  {
    if items == [] then []
    else NormItems(round, items[..|items| - 1]) + [Norm(round, items[|items| - 1])]
  }

  function NormEntries(round: Rounding, es: seq<Entry>): seq<Entry>
    decreases es, 0
  {
    if es == [] then []
    else
      var last := es[|es| - 1];
      PutEntry(NormEntries(round, es[..|es| - 1]), Utf8.Sanitized(last.key), Norm(round, last.value))
  }

  /** The writer pads by the UTF-8 length of a key and the reader by its UTF-16 length. */
  predicate GoodKey(key: Text) {
    0 !in key && |Utf8.Encode(key)| % 4 == |key| % 4
  }

  predicate GoodKeys(v: Xpc)
    decreases v, 0
  {
    match v
    case XArr(items) => AllGood(items)
    case XDict(es) => EntriesGood(es)
    case _ => true
  }

  predicate AllGood(items: seq<Xpc>)
    decreases items, 0
  {
    items == [] || (AllGood(items[..|items| - 1]) && GoodKeys(items[|items| - 1]))
  }

  predicate EntriesGood(es: seq<Entry>)
    decreases es, 0
  {
    es == [] || (EntriesGood(es[..|es| - 1]) && GoodKey(es[|es| - 1].key) && GoodKeys(es[|es| - 1].value))
  }

  // ----- positions -----

  /** The bytes `e` stand at position `at` of `b`. */
  predicate At(b: Bytes, at: nat, e: Bytes) {
    at + |e| <= |b| && b[at..at + |e|] == e
  }

  lemma AtSplit(b: Bytes, at: nat, x: Bytes, y: Bytes)
    requires At(b, at, x + y)
    ensures At(b, at, x) && At(b, at + |x|, y)
  {
    var e := x + y;
    assert b[at..at + |x|] == e[..|x|] == x;
    assert b[at + |x|..at + |x| + |y|] == e[|x|..] == y;
  }

  lemma ReadNumAt(b: Bytes, at: nat, n: nat, w: nat)
    requires n < Pow256(w) && At(b, at, LE(n, w))
    ensures ReadNum(b, at, w) == Ok(Read(n, at + w))
  {
    LERoundTrip(n, w);
  }

  lemma Read32At(b: Bytes, at: nat, n: nat)
    requires n < TWO32 && At(b, at, LE(n, 4))
    ensures ReadNum(b, at, 4) == Ok(Read(n, at + 4))
  {
    Pow256Values();
    ReadNumAt(b, at, n, 4);
  }

  lemma ReadBytesAt(b: Bytes, at: nat, e: Bytes)
    requires At(b, at, e)
    ensures ReadBytes(b, at, |e|) == Read(e, at + |e|)
  {
  }

  lemma SignedAt(b: Bytes, at: nat, n: int)
    requires -TWO63 <= n < TWO63 && At(b, at, LE(Unsigned(n, 8), 8))
    ensures ReadNum(b, at, 8).Ok?
    ensures Signed(ReadNum(b, at, 8).value.value, 8) == n && ReadNum(b, at, 8).value.next == at + 8
  {
    Pow256Values();
    SignedUnsigned(n, 8);
    ReadNumAt(b, at, Unsigned(n, 8), 8);
  }

  // ----- strings and keys -----

  lemma {:induction false} IndexOfZeroAfter(p: Bytes, q: Bytes)
    requires 0 !in p
    ensures IndexOfZero(p + q) == if IndexOfZero(q) < 0 then -1 else |p| + IndexOfZero(q)
  {
    if p == [] {
      assert p + q == q;
    } else {
      assert (p + q)[1..] == p[1..] + q;
      assert p[0] != 0;
      IndexOfZeroAfter(p[1..], q);
    }
  }

  lemma {:induction false} CutAfter(p: Text, q: Text)
    requires 0 !in p
    ensures CutAtNul(p + q) == p + CutAtNul(q)
  {
    if p == [] {
      assert p + q == q;
    } else {
      assert (p + q)[1..] == p[1..] + q && p[0] != 0;
      CutAfter(p[1..], q);
    }
  }

  /** Cutting the terminated bytes at the first zero and decoding cuts the string at its first NUL. */
  lemma {:induction false} StringRead(s: Text)
    ensures var b := Utf8.Encode(s) + [0];
            0 <= IndexOfZero(b) && Utf8.Decode(b[..IndexOfZero(b)]) == CutAtNul(Utf8.Sanitized(s))
  {
    hide Utf8.EncodePoint, Utf8.DecodeFirst, Utf8.Units, Utf8.FirstPoint, Utf8.FirstWidth, IndexOfZero, CutAtNul;
    if s == [] {
      assert Utf8.Encode(s) + [0] == [0] + [];
      ZeroFirst([], []);
    } else {
      var c, n := Utf8.FirstPoint(s), Utf8.FirstWidth(s);
      var p, rest := Utf8.EncodePoint(c), Utf8.Encode(s[n..]);
      assert Utf8.Encode(s) + [0] == p + (rest + [0]);
      Utf8.PointHasNul(c);
      HeadOfPoint(s);
      if c == 0 {
        ZeroPoint();
        ZeroFirst(rest + [0], Utf8.Sanitized(s[n..]));
      } else {
        var head := if Utf8.IsSurrogate(c) then [Utf8.REPLACEMENT] else s[..n];
        StringRead(s[n..]);
        var j := IndexOfZero(rest + [0]);
        IndexOfZeroAfter(p, rest + [0]);
        CutAfter(head, Utf8.Sanitized(s[n..]));
        var d := p + (rest + [0])[..j];
        assert (p + (rest + [0]))[..|p| + j] == d && d[|p|..] == (rest + [0])[..j];
        Utf8.DecodeEncodedPoint(c, (rest + [0])[..j]);
      }
    }
  }

  lemma ZeroFirst(q: Bytes, t: Text)
    ensures IndexOfZero([0] + q) == 0 && CutAtNul([0] + t) == [] == CutAtNul([])
  {
  }

  lemma ZeroPoint()
    ensures Utf8.EncodePoint(0) == [0]
  {
  }

  lemma HeadOfPoint(s: Text)
    requires s != []
    ensures var c := Utf8.FirstPoint(s);
            var head := if Utf8.IsSurrogate(c) then [Utf8.REPLACEMENT] else s[..Utf8.FirstWidth(s)];
            && Utf8.Units(if Utf8.IsSurrogate(c) then Utf8.REPLACEMENT else c) == head
            && (c == 0 ==> head == [0]) && (c != 0 ==> 0 !in head)
  {
    Utf8.UnitsOfFirst(s);
  }

  lemma {:induction false} KeyBytesAt(b: Bytes, at: nat, k: Bytes)
    requires 0 !in k && At(b, at, k + [0])
    ensures ReadKeyBytes(b, at) == Ok(Read(k, at + |k| + 1))
    decreases |k|
  {
    hide At;
    if k != [] {
      assert k + [0] == [k[0]] + (k[1..] + [0]);
      FirstByteAt(b, at, k[0], k[1..] + [0]);
      KeyBytesAt(b, at + 1, k[1..]);
      assert [k[0]] + k[1..] == k;
    } else {
      assert k + [0] == [0] + [];
      FirstByteAt(b, at, 0, []);
    }
  }

  lemma FirstByteAt(b: Bytes, at: nat, x: Byte, rest: Bytes)
    requires At(b, at, [x] + rest)
    ensures at < |b| && b[at] == x && At(b, at + 1, rest)
  {
    AtSplit(b, at, [x], rest);
    assert b[at..at + 1][0] == b[at];
  }

  lemma PaddingAgrees(m: nat, n: nat)
    ensures CalcPadding(m + 1) == CalcPadding(n + 1) <==> m % 4 == n % 4
  {
    PaddingOf(m);
    PaddingOf(n);
  }

  lemma PaddingOf(n: nat)
    ensures CalcPadding(n + 1) == 3 - n % 4
  {
    var q, r := n / 4, n % 4;
    if r == 3 {
      ModUnique(n + 1, 4, q + 1, 0);
    } else {
      ModUnique(n + 1, 4, q, r + 1);
    }
  }

  /** Reading a NUL-free key back leaves the reader at its end exactly when the two lengths agree modulo 4. */
  lemma KeyReadExactlyWhen(b: Bytes, at: nat, key: Text)
    requires 0 !in key && At(b, at, EncodeKey(key))
    ensures ReadKey(b, at).Ok? && ReadKey(b, at).value.value == Utf8.Sanitized(key)
    ensures ReadKey(b, at).value.next == at + |EncodeKey(key)| <==> |Utf8.Encode(key)| % 4 == |key| % 4
  {
    hide Utf8.Encode, Utf8.Decode, Utf8.Sanitized, At, ReadKey, EncodeKey, CalcPadding;
    KeyLayout(b, at, key);
    var k := Utf8.Encode(key);
    PaddingAgrees(|k|, |key|);
  }

  lemma KeyLayout(b: Bytes, at: nat, key: Text)
    requires 0 !in key && At(b, at, EncodeKey(key))
    ensures var k := Utf8.Encode(key);
            && |EncodeKey(key)| == |k| + 1 + CalcPadding(|k| + 1)
            && ReadKey(b, at) == Ok(Read(Utf8.Sanitized(key), at + |k| + 1 + CalcPadding(|key| + 1)))
  {
    hide Utf8.Encode, Utf8.Decode, Utf8.Sanitized, At, ReadKeyBytes, CalcPadding;
    var k := Utf8.Encode(key);
    var zeros := Zeros(CalcPadding(|k| + 1));
    Utf8.EncodeNul(key);
    AtSplit(b, at, k + [0], zeros);
    KeyBytesAt(b, at, k);
    Utf8.DecodeEncode(key);
    Utf8.SanitizedExactlyWhen(key);
  }

  // ----- objects -----

  lemma {:induction false} DecodeAt(round: Rounding, b: Bytes, at: nat, v: Xpc)
    requires EncodeObject(v).Ok? && GoodKeys(v) && At(b, at, EncodeObject(v).value)
    ensures DecodeObject(round, b, at) == Ok(Read(Norm(round, v), at + |EncodeObject(v).value|))
    decreases v, 2
  {
    hide LE, FromLE, At, Signed, Unsigned, Pow256, Hex, Utf8.Encode, Utf8.Decode, Utf8.Sanitized, DecodeObject;
    match v
    case XNull => NullAt(round, b, at);
    case XStr(s) => StringAt(round, b, at, s);
    case XData(bytes) => DataAt(round, b, at, bytes);
    case XArr(items) => ArrayAt(round, b, at, items);
    case XDict(es) => DictionaryAt(round, b, at, es);
    case _ => ScalarAt(round, b, at, v);
  }

  lemma NullAt(round: Rounding, b: Bytes, at: nat)
    requires At(b, at, LE(XPC_NULL, 4))
    ensures DecodeObject(round, b, at) == Ok(Read(XNull, at + 4))
  {
    hide LE, FromLE, At;
    Read32At(b, at, XPC_NULL);
  }

  lemma ScalarAt(round: Rounding, b: Bytes, at: nat, v: Xpc)
    requires v.XBool? || v.XInt? || v.XReal? || v.XBig? || v.XDate? || v.XUuid?
    requires EncodeObject(v).Ok? && At(b, at, EncodeObject(v).value)
    ensures DecodeObject(round, b, at) == Ok(Read(Norm(round, v), at + |EncodeObject(v).value|))
  {
    hide LE, FromLE, At, Signed, Unsigned, Pow256, Hex, ReadNum, JsSlice;
    match v
    case XBool(x) =>
      AtSplit(b, at, LE(XPC_BOOL, 4) + [if x then 1 else 0], Zeros(3));
      AtSplit(b, at, LE(XPC_BOOL, 4), [if x then 1 else 0]);
      Read32At(b, at, XPC_BOOL);
      ByteAt(b, at + 4, if x then 1 else 0);
    case XInt(n) =>
      AtSplit(b, at, LE(XPC_INT64, 4), LE(Unsigned(n, 8), 8));
      Read32At(b, at, XPC_INT64);
      SignedAt(b, at + 4, n);
    case XReal(bits) =>
      AtSplit(b, at, LE(XPC_DOUBLE, 4), bits);
      Read32At(b, at, XPC_DOUBLE);
      SliceAt(b, at + 4, bits);
    case XBig(n) =>
      AtSplit(b, at, LE(XPC_UINT64, 4), LE(n, 8));
      Read32At(b, at, XPC_UINT64);
      Pow256Values();
      ReadNumAt(b, at + 4, n, 8);
    case XDate(ms) => DateAt(round, b, at, ms);
    case XUuid(id) =>
      AtSplit(b, at, LE(XPC_UUID, 4), id);
      Read32At(b, at, XPC_UUID);
      ReadBytesAt(b, at + 4, id);
  }

  lemma DateAt(round: Rounding, b: Bytes, at: nat, ms: int)
    requires EncodeObject(XDate(ms)).Ok? && At(b, at, EncodeObject(XDate(ms)).value)
    ensures DecodeObject(round, b, at) == Ok(Read(XDate(ms), at + |EncodeObject(XDate(ms)).value|))
  {
    hide LE, FromLE, At, Signed, Unsigned, Pow256, ReadNum;
    AtSplit(b, at, LE(XPC_DATE, 4), LE(Unsigned(ms * NANOS, 8), 8));
    Read32At(b, at, XPC_DATE);
    SignedAt(b, at + 4, ms * NANOS);
    WholeMillis(ms);
  }

  lemma WholeMillis(ms: int)
    ensures TruncDiv(ms * NANOS, NANOS) == ms
  {
  }

  lemma ByteAt(b: Bytes, at: nat, x: Byte)
    requires At(b, at, [x])
    ensures ReadByte(b, at) == Ok(Read(x, at + 1))
  {
    assert b[at] == b[at..at + 1][0];
  }

  lemma SliceAt(b: Bytes, at: nat, e: Bytes)
    requires At(b, at, e)
    ensures at + |e| <= |b| && b[at..at + |e|] == e
  {
  }

  /** The parts of a padded object. */
  lemma PaddedAt(b: Bytes, at: nat, tag: nat, data: Bytes)
    requires tag < TWO32 && EncodePadded(tag, data).Ok? && At(b, at, EncodePadded(tag, data).value)
    ensures ReadNum(b, at, 4) == Ok(Read(tag, at + 4))
    ensures ReadNum(b, at + 4, 4) == Ok(Read(|data|, at + 8))
    ensures ReadBytes(b, at + 8, |data|) == Read(data, at + 8 + |data|)
  {
    hide LE, FromLE, At, Pow256, ReadNum, JsSlice;
    var zeros := Zeros(CalcPadding(|data|));
    AtSplit(b, at, LE(tag, 4) + LE(|data|, 4) + data, zeros);
    AtSplit(b, at, LE(tag, 4) + LE(|data|, 4), data);
    AtSplit(b, at, LE(tag, 4), LE(|data|, 4));
    Read32At(b, at, tag);
    Read32At(b, at + 4, |data|);
    ReadBytesAt(b, at + 8, data);
  }

  lemma StringAt(round: Rounding, b: Bytes, at: nat, s: Text)
    requires EncodeObject(XStr(s)).Ok? && At(b, at, EncodeObject(XStr(s)).value)
    ensures DecodeObject(round, b, at) == Ok(Read(Norm(round, XStr(s)), at + |EncodeObject(XStr(s)).value|))
  {
    hide LE, FromLE, At, Pow256, ReadNum, Utf8.Encode, Utf8.Decode, Utf8.Sanitized, ReadBytes, IndexOfZero, CutAtNul;
    var data := Utf8.Encode(s) + [0];
    PaddedAt(b, at, XPC_STRING, data);
    StringRead(s);
    assert JsSlice(data, 0, IndexOfZero(data)) == data[..IndexOfZero(data)];
  }

  lemma DataAt(round: Rounding, b: Bytes, at: nat, data: Bytes)
    requires EncodeObject(XData(data)).Ok? && At(b, at, EncodeObject(XData(data)).value)
    ensures DecodeObject(round, b, at) == Ok(Read(XData(data), at + |EncodeObject(XData(data)).value|))
  {
    hide LE, FromLE, At, Pow256, ReadNum, ReadBytes;
    PaddedAt(b, at, XPC_DATA, data);
  }

  lemma PayloadAt(b: Bytes, at: nat, tag: nat, payload: Bytes)
    requires tag < TWO32 && EncodePayload(tag, payload).Ok? && At(b, at, EncodePayload(tag, payload).value)
    ensures ReadNum(b, at, 4) == Ok(Read(tag, at + 4))
    ensures ReadNum(b, at + 4, 4) == Ok(Read(|payload|, at + 8))
    ensures ReadBytes(b, at + 8, |payload|) == Read(payload, at + 8 + |payload|)
  {
    hide LE, FromLE, At, Pow256, ReadNum, JsSlice;
    AtSplit(b, at, LE(tag, 4) + LE(|payload|, 4), payload);
    AtSplit(b, at, LE(tag, 4), LE(|payload|, 4));
    Read32At(b, at, tag);
    Read32At(b, at + 4, |payload|);
    ReadBytesAt(b, at + 8, payload);
  }

  lemma WholeAt(x: Bytes, y: Bytes)
    ensures At(x + y, 0, x) && At(x + y, |x|, y)
  {
    assert (x + y)[0..|x + y|] == x + y;
    AtSplit(x + y, 0, x, y);
  }

  lemma {:induction false} ArrayAt(round: Rounding, b: Bytes, at: nat, items: seq<Xpc>)
    requires EncodeObject(XArr(items)).Ok? && AllGood(items) && At(b, at, EncodeObject(XArr(items)).value)
    ensures DecodeObject(round, b, at) == Ok(Read(XArr(NormItems(round, items)),
                                                  at + |EncodeObject(XArr(items)).value|))
    decreases items, 1
  {
    hide LE, FromLE, At, Pow256, ReadNum, ReadBytes, DecodeItems, NormItems, AllGood, EncodeItems;
    var count, parts := LE(|items|, 4), EncodeItems(items).value;
    var payload := count + parts;
    PayloadAt(b, at, XPC_ARRAY, payload);
    WholeAt(count, parts);
    Read32At(payload, 0, |items|);
    ItemsAt(round, payload, 4, items);
  }

  lemma {:induction false} ItemsAt(round: Rounding, b: Bytes, at: nat, items: seq<Xpc>)
    requires EncodeItems(items).Ok? && AllGood(items) && At(b, at, EncodeItems(items).value)
    ensures DecodeItems(round, b, at, |items|) == Ok(Read(NormItems(round, items), at + |EncodeItems(items).value|))
    decreases items, 0
  {
    hide At, EncodeObject, DecodeObject, GoodKeys, Norm;
    if items != [] {
      var init, last := items[..|items| - 1], items[|items| - 1];
      AtSplit(b, at, EncodeItems(init).value, EncodeObject(last).value);
      ItemsAt(round, b, at, init);
      DecodeAt(round, b, at + |EncodeItems(init).value|, last);
    }
  }

  lemma {:induction false} DictionaryAt(round: Rounding, b: Bytes, at: nat, es: seq<Entry>)
    requires EncodeDictionary(es).Ok? && EntriesGood(es) && At(b, at, EncodeDictionary(es).value)
    ensures DecodeObject(round, b, at) == Ok(Read(XDict(NormEntries(round, es)), at + |EncodeDictionary(es).value|))
    decreases es, 1
  {
    hide LE, FromLE, At, Pow256, ReadNum, ReadBytes, DecodeEntries, NormEntries, EntriesGood, EncodeEntries;
    var count, parts := LE(|es|, 4), EncodeEntries(es).value;
    var payload := count + parts;
    PayloadAt(b, at, XPC_DICTIONARY, payload);
    WholeAt(count, parts);
    Read32At(payload, 0, |es|);
    EntriesAt(round, payload, 4, es);
  }

  lemma {:induction false} EntriesAt(round: Rounding, b: Bytes, at: nat, es: seq<Entry>)
    requires EncodeEntries(es).Ok? && EntriesGood(es) && At(b, at, EncodeEntries(es).value)
    ensures DecodeEntries(round, b, at, |es|) == Ok(Read(NormEntries(round, es), at + |EncodeEntries(es).value|))
    decreases es, 0
  {
    hide At, EncodeObject, DecodeObject, GoodKeys, Norm, PutEntry, ReadKey, EncodeKey;
    if es != [] {
      var init, last := es[..|es| - 1], es[|es| - 1];
      var p, k, e := EncodeEntries(init).value, EncodeKey(last.key), EncodeObject(last.value).value;
      AtSplit(b, at, p + k, e);
      AtSplit(b, at, p, k);
      EntriesAt(round, b, at, init);
      KeyReadExactlyWhen(b, at + |p|, last.key);
      DecodeAt(round, b, at + |p| + |k|, last.value);
    }
  }

  // ----- alignment -----

  /** Every encoded object, and every key, is a multiple of 4 bytes long. */
  lemma {:induction false} Aligned(v: Xpc)
    requires EncodeObject(v).Ok?
    ensures |EncodeObject(v).value| % 4 == 0
    decreases v, 1
  {
    hide LE, Utf8.Encode, EncodeItems, EncodeEntries, Zeros, CalcPadding, Unsigned;
    match v
    case XArr(items) => ItemsAligned(items);
    case XDict(es) => EntriesAligned(es);
    case _ =>
  }

  lemma {:induction false} ItemsAligned(items: seq<Xpc>)
    requires EncodeItems(items).Ok?
    ensures |EncodeItems(items).value| % 4 == 0
    decreases items, 0
  {
    hide EncodeObject;
    if items != [] {
      ItemsAligned(items[..|items| - 1]);
      Aligned(items[|items| - 1]);
    }
  }

  lemma KeyAligned(key: Text)
    ensures |EncodeKey(key)| % 4 == 0
  {
  }

  lemma {:induction false} EntriesAligned(es: seq<Entry>)
    requires EncodeEntries(es).Ok?
    ensures |EncodeEntries(es).value| % 4 == 0
    decreases es, 0
  {
    hide EncodeObject, EncodeKey;
    if es != [] {
      EntriesAligned(es[..|es| - 1]);
      KeyAligned(es[|es| - 1].key);
      Aligned(es[|es| - 1].value);
    }
  }

  // ----- messages -----

  lemma HeaderAt(b: Bytes, flags: int, len: nat, id: int)
    requires Header(flags, len, id).Ok? && At(b, 0, Header(flags, len, id).value)
    ensures |b| >= HEADER_SIZE && flags >= 0 && id >= 0 && |Header(flags, len, id).value| == HEADER_SIZE
    ensures FromLE(b[0..4]) == WRAPPER_MAGIC && FromLE(b[4..8]) == flags
    ensures FromLE(b[8..16]) == len && FromLE(b[16..24]) == id
  {
    hide LE, FromLE, At, Pow256;
    SliceAt(b, 0, Header(flags, len, id).value);
    var m, f, l, i := LE(WRAPPER_MAGIC, 4), LE(flags, 4), LE(len, 8), LE(id, 8);
    AtSplit(b, 0, m + f + l, i);
    AtSplit(b, 0, m + f, l);
    AtSplit(b, 0, m, f);
    SliceAt(b, 0, m);
    SliceAt(b, 4, f);
    SliceAt(b, 8, l);
    SliceAt(b, 16, i);
    Pow256Values();
    LERoundTrip(WRAPPER_MAGIC, 4);
    LERoundTrip(flags, 4);
    LERoundTrip(len, 8);
    LERoundTrip(id, 8);
  }

  /** The message the other side sees. */
  function Received(round: Rounding, flags: nat, id: nat, body: Option<seq<Entry>>): Message {
    Message(flags, id, if body.Some? then Some(XDict(NormEntries(round, body.value))) else None)
  }

  /**
   * Decoding an encoded message followed by anything at all gives the message back and consumes
   * exactly its bytes, which are a multiple of 4.
   */
  lemma MessageRoundTrip(round: Rounding, flags: int, id: int, body: Option<seq<Entry>>, tail: Bytes)
    requires EncodeMessage(flags, id, body).Ok? && (body.Some? ==> EntriesGood(body.value))
    ensures flags >= 0 && id >= 0
    ensures var e := EncodeMessage(flags, id, body).value;
            |e| % 4 == 0 && DecodeMessage(round, e + tail) == Ok(Read(Received(round, flags, id, body), |e|))
  {
    hide LE, FromLE, At, Pow256, Header, DecodeObject, EncodeDictionary, NormEntries, EntriesGood, JsSlice, ReadNum;
    var e := EncodeMessage(flags, id, body).value;
    if body.None? {
      WholeAt(e, tail);
      HeaderAt(e + tail, flags, 0, id);
    } else {
      var d := EncodeDictionary(body.value).value;
      var h := Header(flags, |d| + 8, id).value;
      var m, v := LE(OBJECT_MAGIC, 4), LE(BODY_VERSION, 4);
      var b := e + tail;
      WholeAt(h + m + v + d, tail);
      AtSplit(b, 0, h + m + v, d);
      AtSplit(b, 0, h + m, v);
      AtSplit(b, 0, h, m);
      HeaderAt(b, flags, |d| + 8, id);
      Read32At(b, 24, OBJECT_MAGIC);
      Read32At(b, 28, BODY_VERSION);
      SliceAt(b, 32, d);
      assert JsSlice(b, 32, 32 + |d|) == d;
      WholeAt(d, []);
      assert d + [] == d;
      DictionaryAt(round, d, 0, body.value);
      Aligned(XDict(body.value));
    }
  }

  /** A decoded message does not depend on the bytes that follow it. */
  lemma DecodeIgnoresTail(round: Rounding, b: Bytes, tail: Bytes)
    requires DecodeMessage(round, b).Ok?
    ensures DecodeMessage(round, b + tail) == DecodeMessage(round, b)
  {
    hide FromLE, DecodeObject;
    var c := b + tail;
    assert c[0..4] == b[0..4] && c[4..8] == b[4..8] && c[8..16] == b[8..16] && c[16..24] == b[16..24];
    var len := FromLE(b[8..16]);
    if len != 0 {
      if len < 8 {
        EmptyBody(round, b, len);
        assert false;
      } else {
        assert c[24..28] == b[24..28] && c[28..32] == b[28..32];
        assert c[32..24 + len] == b[32..24 + len];
      }
    }
  }

  /** Body lengths 1 to 7 never decode: the body slice is empty. */
  lemma EmptyBody(round: Rounding, b: Bytes, len: nat)
    requires 0 < len < 8 && |b| >= 32
    ensures DecodeObject(round, JsSlice(b, 32, 32 + (len as int - 8)), 0).Err?
  {
  }

  // ----- key padding, exactly -----

  /** The reader stops within 3 bytes of the end of the key, and skips only padding. */
  lemma KeyEnds(b: Bytes, key: Text)
    requires 0 !in key && At(b, 4, EncodeKey(key))
    ensures ReadKey(b, 4).Ok?
    ensures var at, end := ReadKey(b, 4).value.next, 4 + |EncodeKey(key)|;
            end - 3 <= at <= end + 3 && (forall i :: at <= i < end ==> i < |b| && b[i] == 0)
  {
    hide Utf8.Encode, Utf8.Decode;
    var k := Utf8.Encode(key);
    var zeros := Zeros(CalcPadding(|k| + 1));
    Utf8.EncodeNul(key);
    AtSplit(b, 4, k + [0], zeros);
    KeyBytesAt(b, 4, k);
    var start := 4 + |k| + 1;
    forall i | start <= i < 4 + |EncodeKey(key)|
      ensures b[i] == 0
    {
      assert b[start..start + |zeros|][i - start] == zeros[i - start];
    }
  }

  // ----- values that come back unchanged -----

  /** `Number(n)` is exact up to 2^53. */
  ghost predicate ExactToSafe(round: Rounding) {
    forall n :: -(MAX_SAFE_INTEGER + 1) <= n <= MAX_SAFE_INTEGER + 1 ==> round(n) == n
  }

  predicate Safe(n: int) {
    -(MAX_SAFE_INTEGER + 1) <= n <= MAX_SAFE_INTEGER + 1
  }

  /** No NUL and no lone surrogate. */
  predicate CleanText(t: Text) {
    0 !in t && Utf8.NoLoneSurrogate(t)
  }

  /** Numbers up to 2^53, clean strings, no bigints or UUIDs, and dictionaries with different clean keys. */
  predicate Plain(v: Xpc)
    decreases v, 0
  {
    match v
    case XInt(n) => Safe(n)
    case XBig(_) => false
    case XStr(s) => CleanText(s)
    case XUuid(_) => false
    case XArr(items) => AllPlain(items)
    case XDict(es) => PlainEntries(es)
    case _ => true
  }

  predicate AllPlain(items: seq<Xpc>)
    decreases items, 0
  {
    items == [] || (AllPlain(items[..|items| - 1]) && Plain(items[|items| - 1]))
  }

  predicate PlainEntries(es: seq<Entry>)
    decreases es, 0
  {
    es == []
    || (var init, last := es[..|es| - 1], es[|es| - 1];
        PlainEntries(init) && CleanText(last.key) && Plain(last.value) && forall e :: e in init ==> e.key != last.key)
  }

  lemma {:induction false} CutNothing(t: Text)
    requires 0 !in t
    ensures CutAtNul(t) == t
  {
    CutAfter(t, []);
    assert t + [] == t;
  }

  lemma {:induction false} PutNew(es: seq<Entry>, key: Text, value: Xpc)
    requires forall e :: e in es ==> e.key != key
    ensures PutEntry(es, key, value) == es + [Entry(key, value)]
  {
    if es != [] {
      assert es[0] in es;
      PutNew(es[1..], key, value);
    }
  }

  lemma {:induction false} PlainIsNormal(round: Rounding, v: Xpc)
    requires ExactToSafe(round) && Plain(v)
    ensures Norm(round, v) == v
    decreases v, 1
  {
    hide Utf8.Sanitized, Utf8.NoLoneSurrogate, CutAtNul;
    match v
    case XStr(s) => Utf8.SanitizedExactlyWhen(s); CutNothing(s);
    case XArr(items) => ItemsNormal(round, items);
    case XDict(es) => EntriesNormal(round, es);
    case _ =>
  }

  lemma {:induction false} ItemsNormal(round: Rounding, items: seq<Xpc>)
    requires ExactToSafe(round) && AllPlain(items)
    ensures NormItems(round, items) == items
    decreases items, 0
  {
    hide Norm, Plain, ExactToSafe;
    if items != [] {
      var init, last := items[..|items| - 1], items[|items| - 1];
      ItemsNormal(round, init);
      PlainIsNormal(round, last);
      assert init + [last] == items;
    }
  }

  lemma {:induction false} EntriesNormal(round: Rounding, es: seq<Entry>)
    requires ExactToSafe(round) && PlainEntries(es)
    ensures NormEntries(round, es) == es
    decreases es, 0
  {
    hide Norm, Plain, ExactToSafe, Utf8.Sanitized, Utf8.NoLoneSurrogate;
    if es != [] {
      var init, last := es[..|es| - 1], es[|es| - 1];
      EntriesNormal(round, init);
      PlainIsNormal(round, last.value);
      Utf8.SanitizedExactlyWhen(last.key);
      PutNew(init, last.key, last.value);
      assert init + [last] == es;
    }
  }

  /** A message of plain values and readable keys comes back as it was sent, whatever follows it. */
  lemma MessageReturns(round: Rounding, flags: int, id: int, es: seq<Entry>, tail: Bytes)
    requires ExactToSafe(round) && EncodeMessage(flags, id, Some(es)).Ok? && EntriesGood(es) && PlainEntries(es)
    ensures var e := EncodeMessage(flags, id, Some(es)).value;
            DecodeMessage(round, e + tail) == Ok(Read(Message(flags, id, Some(XDict(es))), |e|))
  {
    hide EncodeMessage, DecodeMessage, EntriesGood, PlainEntries, NormEntries;
    MessageRoundTrip(round, flags, id, Some(es), tail);
    EntriesNormal(round, es);
  }
}
