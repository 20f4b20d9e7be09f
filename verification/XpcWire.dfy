/** The XPC object and message format in its own bytes, and that the encoder writes it and the decoder reads it. */
module XpcWire {
  import opened Bytes
  import opened Wrappers
  import opened XpcFormat
  import opened XpcRoundTrip
  import Utf8
  import O = ByteOrder

  // ----- objects -----

  /** A type tag: two bytes that count, two zeros. */
  predicate Tagged(d: Bytes, high: Byte) {
    |d| >= 4 && d[0] == 0 && d[1] == high && d[2] == 0 && d[3] == 0
  }

  /** Four little-endian bytes. */
  predicate Size(d: Bytes, n: nat) {
    |d| == 4 && n == d[0] as int + 0x100 * d[1] as int + 0x1_0000 * d[2] as int + 0x100_0000 * d[3] as int
  }

  /** Eight little-endian bytes, two's complement. */
  predicate Number(d: Bytes, n: int) {
    |d| == 8 && FromLE(d) == (if n < 0 then n + 0x1_0000_0000_0000_0000 else n)
  }

  /** `body`, then zeros to the next multiple of four. */
  predicate Padded(d: Bytes, body: Bytes) {
    && |d| % 4 == 0 && |body| <= |d| < |body| + 4 && d[..|body|] == body && forall i :: |body| <= i < |d| ==> d[i] == 0
  }

  predicate SizedData(d: Bytes, high: Byte, body: Bytes) {
    Tagged(d, high) && |d| >= 8 && Size(d[4..8], |body|) && Padded(d[8..], body)
  }

  /** A container: tag, length of the rest, count, and the parts. */
  predicate Container(d: Bytes, high: Byte, count: nat) {
    Tagged(d, high) && |d| >= 12 && Size(d[4..8], |d| - 8) && Size(d[8..12], count)
  }

  ghost predicate Wire(d: Bytes, v: Xpc)
    decreases v, 0
  {
    match v
    case XNull => Tagged(d, 0x10) && |d| == 4
    case XBool(b) => Tagged(d, 0x20) && |d| == 8 && d[4..] == [if b then 1 else 0, 0, 0, 0]
    case XInt(n) => Tagged(d, 0x30) && Number(d[4..], n)
    case XBig(n) => Tagged(d, 0x40) && n >= 0 && Number(d[4..], n)
    case XReal(bits) => Tagged(d, 0x50) && d[4..] == bits
    case XDate(ms) => Tagged(d, 0x70) && Number(d[4..], ms * 1000000)
    case XData(bytes) => SizedData(d, 0x80, bytes)
    case XStr(s) => SizedData(d, 0x90, Utf8.Encode(s) + [0])
    case XUuid(id) => Tagged(d, 0xa0) && d[4..] == id
    case XArr(items) => Container(d, 0xe0, |items|) && WireItems(d[12..], items)
    case XDict(es) => Container(d, 0xf0, |es|) && WireEntries(d[12..], es)
  }

  ghost predicate WireItems(d: Bytes, items: seq<Xpc>)
    decreases items, 0
  {
    if items == [] then d == []
    else exists k: nat :: k <= |d| && WireItems(d[..k], items[..|items| - 1]) && Wire(d[k..], items[|items| - 1])
  }

  /** Entries: a key with its NUL, padded, then the value. */
  ghost predicate WireEntries(d: Bytes, es: seq<Entry>)
    decreases es, 0
  {
    if es == [] then d == []
    else
      var last := es[|es| - 1];
      exists j: nat, k: nat :: Cuts(d, j, k) && WireEntries(d[..j], es[..|es| - 1])
                               && Padded(d[j..k], Utf8.Encode(last.key) + [0]) && Wire(d[k..], last.value)
  }

  predicate Cuts(d: Bytes, j: nat, k: nat) {
    j <= k <= |d|
  }

  lemma TagWritten(tag: nat, rest: Bytes)
    requires tag < 0x1_0000 && tag % 0x100 == 0
    ensures Tagged(LE(tag, 4) + rest, tag / 0x100) && (LE(tag, 4) + rest)[4..] == rest
  {
    hide LE;
    FourWritten(tag);
    var a: int, b: int, c: int, d: int := LE(tag, 4)[0], LE(tag, 4)[1], LE(tag, 4)[2], LE(tag, 4)[3];
    assert a == 0 && b == tag / 0x100 && c == 0 && d == 0 by {
      ModUnique(tag, 0x100, 0x100_0000 / 0x100 * d + 0x100 * c + b, a);
    }
  }

  lemma FourWritten(n: nat)
    requires n < TWO32
    ensures Size(LE(n, 4), n)
  {
    hide LE, FromLE;
    Pow256Values();
    LERoundTrip(n, 4);
    O.FourBytes(LE(n, 4));
  }

  lemma NumberWritten(n: int)
    requires -TWO63 <= n < TWO63
    ensures Number(LE(Unsigned(n, 8), 8), n)
  {
    hide LE, FromLE;
    Pow256Values();
    if n < 0 {
      ShiftMod(n, TWO64);
      SmallMod(n + TWO64, TWO64);
    } else {
      SmallMod(n, TWO64);
    }
    LERoundTrip(Unsigned(n, 8), 8);
  }

  lemma PaddingWritten(body: Bytes)
    ensures Padded(body + Zeros(CalcPadding(|body|)), body)
  {
  }

  lemma SizedWritten(tag: nat, body: Bytes)
    requires tag < 0x1_0000 && tag % 0x100 == 0 && EncodePadded(tag, body).Ok?
    ensures SizedData(EncodePadded(tag, body).value, tag / 0x100, body)
  {
    hide LE, Padded, Size;
    var len, pad := LE(|body|, 4), Zeros(CalcPadding(|body|));
    TagWritten(tag, len + (body + pad));
    FourWritten(|body|);
    PaddingWritten(body);
    var d := EncodePadded(tag, body).value;
    assert d == LE(tag, 4) + (len + (body + pad));
    assert d[4..8] == len && d[8..] == body + pad;
  }

  lemma ContainerWritten(tag: nat, count: nat, parts: Bytes)
    requires tag < 0x1_0000 && tag % 0x100 == 0 && count < TWO32 && EncodePayload(tag, LE(count, 4) + parts).Ok?
    ensures var d := EncodePayload(tag, LE(count, 4) + parts).value;
            Container(d, tag / 0x100, count) && d[12..] == parts
  {
    hide LE, Size;
    var n := |LE(count, 4) + parts|;
    TagWritten(tag, LE(n, 4) + (LE(count, 4) + parts));
    FourWritten(n);
    FourWritten(count);
    PartsOf(LE(tag, 4), LE(n, 4), LE(count, 4), parts);
  }

  lemma PartsOf(a: Bytes, b: Bytes, c: Bytes, parts: Bytes)
    requires |a| == |b| == |c| == 4
    ensures var d := a + b + (c + parts);
            d == a + (b + (c + parts)) && d[4..8] == b && d[8..12] == c && d[12..] == parts
  {
  }

  lemma KeyWritten(key: Text)
    ensures Padded(EncodeKey(key), Utf8.Encode(key) + [0])
  {
    PaddingWritten(Utf8.Encode(key) + [0]);
  }

  lemma ScalarWritten(v: Xpc)
    requires EncodeObject(v).Ok? && !v.XArr? && !v.XDict?
    ensures Wire(EncodeObject(v).value, v)
  {
    hide LE, FromLE, Size, Padded, Number, Unsigned, EncodePadded, SizedData, Tagged, Utf8.Encode;
    match v
    case XNull => TagWritten(XPC_NULL, []); assert LE(XPC_NULL, 4) + [] == LE(XPC_NULL, 4);
    case XBool(b) =>
      TagWritten(XPC_BOOL, [if b then 1 else 0, 0, 0, 0]);
      assert EncodeObject(v).value == LE(XPC_BOOL, 4) + [if b then 1 else 0, 0, 0, 0];
    case XInt(n) => TagWritten(XPC_INT64, LE(Unsigned(n, 8), 8)); NumberWritten(n);
    case XReal(bits) => TagWritten(XPC_DOUBLE, bits);
    case XBig(n) => BigWritten(n); TagWritten(XPC_UINT64, LE(n, 8));
    case XStr(s) => SizedWritten(XPC_STRING, Utf8.Encode(s) + [0]);
    case XDate(ms) => TagWritten(XPC_DATE, LE(Unsigned(ms * NANOS, 8), 8)); NumberWritten(ms * NANOS);
    case XUuid(id) => TagWritten(XPC_UUID, id);
    case XData(bytes) => SizedWritten(XPC_DATA, bytes);
  }

  lemma BigWritten(n: int)
    requires 0 <= n < TWO64
    ensures Number(LE(n, 8), n)
  {
    hide LE, FromLE;
    Pow256Values();
    LERoundTrip(n, 8);
  }

  /** Every object the encoder writes is in the format. */
  lemma {:induction false} ObjectWritten(v: Xpc)
    requires EncodeObject(v).Ok?
    ensures Wire(EncodeObject(v).value, v)
    decreases v, 1
  {
    hide LE, EncodePayload, Container, EncodeItems, EncodeEntries, WireItems, WireEntries;
    match v
    case XArr(items) =>
      ItemsWritten(items);
      ContainerWritten(XPC_ARRAY, |items|, EncodeItems(items).value);
    case XDict(es) =>
      EntriesWritten(es);
      ContainerWritten(XPC_DICTIONARY, |es|, EncodeEntries(es).value);
    case _ => ScalarWritten(v);
  }

  lemma {:induction false} ItemsWritten(items: seq<Xpc>)
    requires EncodeItems(items).Ok?
    ensures WireItems(EncodeItems(items).value, items)
    decreases items, 0
  {
    hide EncodeObject, Wire;
    if items != [] {
      var init, last := items[..|items| - 1], items[|items| - 1];
      ItemsWritten(init);
      ObjectWritten(last);
      var d, k := EncodeItems(items).value, |EncodeItems(init).value|;
      assert d[..k] == EncodeItems(init).value && d[k..] == EncodeObject(last).value;
    }
  }

  lemma {:induction false} EntriesWritten(es: seq<Entry>)
    requires EncodeEntries(es).Ok?
    ensures WireEntries(EncodeEntries(es).value, es)
    decreases es, 0
  {
    hide EncodeObject, EncodeKey, Wire, Padded, Utf8.Encode;
    if es != [] {
      var init, last := es[..|es| - 1], es[|es| - 1];
      EntriesWritten(init);
      ObjectWritten(last.value);
      KeyWritten(last.key);
      var d, j := EncodeEntries(es).value, |EncodeEntries(init).value|;
      var k := j + |EncodeKey(last.key)|;
      assert d[..j] == EncodeEntries(init).value && d[j..k] == EncodeKey(last.key)
          && d[k..] == EncodeObject(last.value).value;
      assert Cuts(d, j, k);
    }
  }

  // ----- messages -----

  /** The wrapper: magic, flags, length of the rest, message number; then the magic of the body, version 5, the body. */
  ghost predicate IsMessage(d: Bytes, flags: nat, id: nat, body: Option<seq<Entry>>) {
    && |d| >= 24 && d[..4] == [0x92, 0x0b, 0xb0, 0x29]
    && FromLE(d[4..8]) == flags && FromLE(d[8..16]) == |d| - 24 && FromLE(d[16..24]) == id
    && match body
       case None => |d| == 24
       case Some(es) =>
         |d| >= 32 && d[24..32] == [0x42, 0x37, 0x13, 0x42, 5, 0, 0, 0] && Wire(d[32..], XDict(es))
  }

  lemma Magics()
    ensures LE(WRAPPER_MAGIC, 4) == [0x92, 0x0b, 0xb0, 0x29]
    ensures LE(OBJECT_MAGIC, 4) + LE(BODY_VERSION, 4) == [0x42, 0x37, 0x13, 0x42, 5, 0, 0, 0]
  {
    Four(WRAPPER_MAGIC, 0x92, 0x0b, 0xb0, 0x29);
    Four(OBJECT_MAGIC, 0x42, 0x37, 0x13, 0x42);
    Four(BODY_VERSION, 5, 0, 0, 0);
  }

  lemma Four(n: nat, a: Byte, b: Byte, c: Byte, d: Byte)
    requires n == a as int + 0x100 * b as int + 0x1_0000 * c as int + 0x100_0000 * d as int
    ensures LE(n, 4) == [a, b, c, d]
  {
    hide LE, FromLE;
    O.FourBytes([a, b, c, d]);
    O.OneWriting([a, b, c, d]);
  }

  lemma MessageWritten(flags: int, id: int, body: Option<seq<Entry>>)
    requires EncodeMessage(flags, id, body).Ok?
    ensures flags >= 0 && id >= 0 && IsMessage(EncodeMessage(flags, id, body).value, flags, id, body)
  {
    hide LE, FromLE, Wire, EncodeDictionary, Header;
    Magics();
    var d := EncodeMessage(flags, id, body).value;
    if body.None? {
      HeaderWritten(flags, 0, id, []);
      assert d + [] == d;
    } else {
      var es := body.value;
      var b := EncodeDictionary(es).value;
      var rest := LE(OBJECT_MAGIC, 4) + LE(BODY_VERSION, 4) + b;
      HeaderWritten(flags, |b| + 8, id, rest);
      assert d == Header(flags, |b| + 8, id).value + rest;
      assert d[24..32] == rest[..8] == LE(OBJECT_MAGIC, 4) + LE(BODY_VERSION, 4) && d[32..] == rest[8..] == b;
      DictionaryIsObject(es);
      ObjectWritten(XDict(es));
    }
  }

  lemma DictionaryIsObject(es: seq<Entry>)
    ensures EncodeObject(XDict(es)) == EncodeDictionary(es)
  {
  }

  lemma HeaderWritten(flags: int, len: int, id: int, rest: Bytes)
    requires Header(flags, len, id).Ok?
    ensures flags >= 0 && len >= 0 && id >= 0
    ensures var h := Header(flags, len, id).value;
            var d := h + rest;
            && |h| == 24 && d[..4] == [0x92, 0x0b, 0xb0, 0x29]
            && FromLE(d[4..8]) == flags && FromLE(d[8..16]) == len && FromLE(d[16..24]) == id && d[24..] == rest
  {
    hide LE, FromLE;
    Magics();
    Pow256Values();
    LERoundTrip(flags, 4);
    LERoundTrip(len, 8);
    LERoundTrip(id, 8);
    var d := Header(flags, len, id).value + rest;
    assert d[..4] == LE(WRAPPER_MAGIC, 4) && d[4..8] == LE(flags, 4) && d[8..16] == LE(len, 8)
        && d[16..24] == LE(id, 8);
  }
}
