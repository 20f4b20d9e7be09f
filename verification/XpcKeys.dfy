/** XPC dictionary keys: what every key reads back as, and what a misread key does to the value behind it. */
module XpcKeys {
  import opened Bytes
  import opened Wrappers
  import opened XpcFormat
  import opened XpcRoundTrip
  import Utf8

  // ----- every key -----

  /** A key that holds a NUL reads back as the part before it, and the reader stops soon behind that. */
  lemma KeyWithNul(b: Bytes, at: nat, p: Text, q: Text)
    requires 0 !in p && At(b, at, EncodeKey(p + [0] + q))
    ensures ReadKey(b, at) == Ok(Read(Utf8.Sanitized(p), at + |Utf8.Encode(p)| + 1 + CalcPadding(|p| + 1)))
  {
    hide Utf8.Encode, Utf8.Decode, Utf8.Sanitized, At, ReadKeyBytes, CalcPadding, EncodeKey;
    var k := Utf8.Encode(p);
    var rest := NulLayout(p, q);
    AtSplit(b, at, k + [0], rest);
    Utf8.EncodeNul(p);
    KeyBytesAt(b, at, k);
    Utf8.DecodeEncode(p);
    Utf8.SanitizedExactlyWhen(p);
  }

  lemma NulLayout(p: Text, q: Text) returns (rest: Bytes)
    ensures EncodeKey(p + [0] + q) == (Utf8.Encode(p) + [0]) + rest
  {
    hide Utf8.Encode, CalcPadding;
    NulInKey(p, q);
    var zeros := Zeros(CalcPadding(|Utf8.Encode(p + [0] + q)| + 1));
    rest := Utf8.Encode(q) + [0] + zeros;
  }

  lemma NulInKey(p: Text, q: Text)
    ensures Utf8.Encode(p + [0] + q) == Utf8.Encode(p) + [0] + Utf8.Encode(q)
  {
    hide Utf8.Encode;
    assert p + [0] + q == p + ([0] + q);
    Utf8.EncodeJoin(p, [0] + q);
    NulFirst(q);
  }

  lemma NulFirst(q: Text)
    ensures Utf8.Encode([0] + q) == [0] + Utf8.Encode(q)
  {
    var t := [0] + q;
    assert Utf8.FirstWidth(t) == 1 && t[1..] == q;
  }

  lemma {:induction false} FirstNul(t: Text) returns (p: Text, q: Text)
    requires 0 in t
    ensures 0 !in p && t == p + [0] + q
  {
    if t[0] == 0 {
      p, q := [], t[1..];
    } else {
      assert t == [t[0]] + t[1..];
      p, q := FirstNul(t[1..]);
      p := [t[0]] + p;
    }
  }

  /** A key reads back whole, with the reader at its end, exactly when it has no NUL and its lengths agree modulo 4. */
  lemma KeyReadsBackExactlyWhen(b: Bytes, at: nat, key: Text)
    requires At(b, at, EncodeKey(key))
    ensures ReadKey(b, at) == Ok(Read(Utf8.Sanitized(key), at + |EncodeKey(key)|)) <==> GoodKey(key)
  {
    hide Utf8.Encode, Utf8.Decode, Utf8.Sanitized, At, ReadKey, EncodeKey, CalcPadding;
    if 0 in key {
      var p, q := FirstNul(key);
      KeyWithNul(b, at, p, q);
      Utf8.SanitizedExactlyWhen(key);
      Utf8.SanitizedExactlyWhen(p);
      assert |p| < |key|;
    } else {
      KeyReadExactlyWhen(b, at, key);
    }
  }

  // ----- type tags, a few bytes off -----

  predicate Supported(tag: nat) {
    tag == XPC_NULL || tag == XPC_BOOL || tag == XPC_INT64 || tag == XPC_UINT64 || tag == XPC_DOUBLE || tag == XPC_DATE
    || tag == XPC_DATA || tag == XPC_STRING || tag == XPC_UUID || tag == XPC_ARRAY || tag == XPC_DICTIONARY
  }

  lemma OnlySupported(round: Rounding, b: Bytes, at: nat)
    ensures DecodeObject(round, b, at).Ok? ==> at + 4 <= |b| && Supported(FromLE(b[at..at + 4]))
  {
  }

  function TagOf(v: Xpc): (tag: nat)
    ensures Supported(tag)
  {
    match v
    case XNull => XPC_NULL
    case XBool(_) => XPC_BOOL
    case XInt(_) => XPC_INT64
    case XReal(_) => XPC_DOUBLE
    case XBig(_) => XPC_UINT64
    case XStr(_) => XPC_STRING
    case XDate(_) => XPC_DATE
    case XUuid(_) => XPC_UUID
    case XData(_) => XPC_DATA
    case XArr(_) => XPC_ARRAY
    case XDict(_) => XPC_DICTIONARY
  }

  /** Every tag is two bytes of which the lower is zero, and two more zeros. */
  lemma TagBytes(tag: nat)
    requires Supported(tag)
    ensures LE(tag, 4) == [0, tag / 256, 0, 0] && 0 < tag / 256 < 256
  {
    hide LE;
    LEStep(tag, 4);
    LEStep(tag / 256, 3);
    LEStep(0, 2);
    LEStep(0, 1);
    assert LE(0, 0) == [];
  }

  /** The encoding of a value begins with its tag. */
  lemma TagFirst(v: Xpc)
    requires EncodeObject(v).Ok?
    ensures var e := EncodeObject(v).value; |e| >= 4 && e[..4] == LE(TagOf(v), 4)
  {
    hide LE, EncodeItems, EncodeEntries, Utf8.Encode, CalcPadding;
  }

  /** The four bytes of a number, and which of them a tag leaves zero. */
  lemma FourBytes(w: Bytes)
    requires |w| == 4
    ensures var a: int, b: int, c: int, d: int := w[0], w[1], w[2], w[3];
            FromLE(w) == a + 256 * b + 0x1_0000 * c + 0x100_0000 * d
    ensures Supported(FromLE(w)) ==> w[0] == 0 && w[1] != 0 && w[2] == 0 && w[3] == 0
  {
    assert FromLE(w) == w[0] + 256 * FromLE(w[1..]);
    assert FromLE(w[1..]) == w[1] + 256 * FromLE(w[1..][1..]);
    assert FromLE(w[1..][1..]) == w[2] + 256 * FromLE(w[1..][1..][1..]);
    assert FromLE(w[1..][1..][1..]) == w[3] + 256 * FromLE(w[1..][1..][1..][1..]);
  }

  /** The three bytes behind a tag, read together with the last byte of the tag, are a supported tag. */
  predicate LateTag(e: Bytes) {
    |e| >= 7 && e[5] == 0 && e[6] == 0 && var x: int := e[4]; Supported(256 * x)
  }

  /** The value begins at `end`, behind zeros; the reader begins `shift` bytes off. */
  predicate Shifted(b: Bytes, end: nat, at: nat, shift: int, v: Xpc) {
    && at == end + shift && -3 <= shift <= 3
    && EncodeObject(v).Ok? && |b| == end + |EncodeObject(v).value| && b[end..] == EncodeObject(v).value
    && forall i :: at <= i < end ==> b[i] == 0
  }

  /**
   * One to three bytes early, and one or two late, no tag is found; three late, only where the bytes of the
   * value make one.
   */
  lemma MisreadTag(round: Rounding, b: Bytes, end: nat, at: nat, shift: int, v: Xpc)
    requires Shifted(b, end, at, shift, v) && shift != 0 && DecodeObject(round, b, at).Ok?
    ensures shift == 3
    ensures LateTag(EncodeObject(v).value)
  {
    hide DecodeObject, EncodeObject, LE, FromLE, TagOf, Supported;
    var e := EncodeObject(v).value;
    OnlySupported(round, b, at);
    TagFirst(v);
    TagBytes(TagOf(v));
    var w := b[at..at + 4];
    FourBytes(w);
    assert forall i :: 0 <= i < |e| ==> b[end + i] == e[i];
    assert forall i :: 0 <= i < 4 ==> e[i] == e[..4][i] && w[i] == b[at + i];
  }

  // ----- dictionaries of one entry -----

  /** How far from the end of the key the reader stops. */
  function Shift(key: Text): (d: int)
    ensures -3 <= d <= 3
  {
    |Utf8.Encode(key)| % 4 - |key| % 4
  }

  function Payload(key: Text, e: Bytes): Bytes {
    LE(1, 4) + (EncodeKey(key) + e)
  }

  lemma OneEntryEncoded(key: Text, v: Xpc)
    requires EncodeObject(XDict([Entry(key, v)])).Ok?
    ensures EncodeObject(v).Ok?
    ensures EncodePayload(XPC_DICTIONARY, Payload(key, EncodeObject(v).value)) == EncodeObject(XDict([Entry(key, v)]))
  {
    hide EncodeKey, LE, EncodeObject;
    var es := [Entry(key, v)];
    DictIsDictionary(es);
    assert es[..0] == [] && EncodeEntries(es[..0]) == Ok([]);
    assert [] + EncodeKey(key) == EncodeKey(key);
  }

  lemma DictIsDictionary(es: seq<Entry>)
    ensures EncodeObject(XDict(es)) == EncodeDictionary(es)
  {
  }

  /** Decoding the dictionary is decoding whatever stands where the key's reader stopped. */
  lemma OneEntryRead(round: Rounding, key: Text, v: Xpc)
    requires 0 !in key && EncodeObject(XDict([Entry(key, v)])).Ok?
    ensures EncodeObject(v).Ok?
    ensures var e := EncodeObject(v).value;
            var b, p, end := EncodeObject(XDict([Entry(key, v)])).value, Payload(key, e), 4 + |EncodeKey(key)|;
            && Shifted(p, end, end + Shift(key), Shift(key), v)
            && DecodeObject(round, b, 0) ==
               match DecodeObject(round, p, end + Shift(key))
               case Err(x) => Err(x)
               case Ok(r) => Ok(Read(XDict([Entry(Utf8.Sanitized(key), r.value)]), |b|))
  {
    hide LE, FromLE, At, Pow256, ReadBytes, EncodeKey, Utf8.Encode, Utf8.Sanitized, ReadNum, ReadKey, EncodeObject,
        Shift;
    OneEntryEncoded(key, v);
    var e, k, count := EncodeObject(v).value, EncodeKey(key), LE(1, 4);
    var p := Payload(key, e);
    var b := EncodeObject(XDict([Entry(key, v)])).value;
    WholeAt(b, []);
    assert b + [] == b;
    PayloadAt(b, 0, XPC_DICTIONARY, p);
    WholeAt(count, k + e);
    AtSplit(p, 4, k, e);
    Read32At(p, 0, 1);
    KeyStops(p, key);
    assert DecodeEntries(round, p, 4, 0) == Ok(Read([], 4));
    ValueBehind(key, v);
    DictionaryPayload(round, b, p);
  }

  /** The reader of the key stops `Shift` bytes off its end, with zeros between. */
  lemma KeyStops(p: Bytes, key: Text)
    requires 0 !in key && At(p, 4, EncodeKey(key))
    ensures 4 + |EncodeKey(key)| + Shift(key) >= 4
    ensures ReadKey(p, 4) == Ok(Read(Utf8.Sanitized(key), 4 + |EncodeKey(key)| + Shift(key)))
    ensures forall i :: 4 + |EncodeKey(key)| + Shift(key) <= i < 4 + |EncodeKey(key)| ==> i < |p| && p[i] == 0
  {
    hide Utf8.Encode, Utf8.Decode, Utf8.Sanitized, ReadKey, EncodeKey, CalcPadding;
    KeyLayout(p, 4, key);
    KeyEnds(p, key);
    PaddingOf(|Utf8.Encode(key)|);
    PaddingOf(|key|);
    var at: nat, end := ReadKey(p, 4).value.next, 4 + |EncodeKey(key)|;
    assert at == end + Shift(key);
    forall i | end + Shift(key) <= i < end
      ensures i < |p| && p[i] == 0
    {
      assert at <= i < end <= |p|;
    }
  }

  lemma ValueBehind(key: Text, v: Xpc)
    requires EncodeObject(v).Ok?
    ensures var e, end := EncodeObject(v).value, 4 + |EncodeKey(key)|;
            |Payload(key, e)| == end + |e| && Payload(key, e)[end..] == e
  {
    hide EncodeKey, EncodeObject;
  }

  lemma DictionaryPayload(round: Rounding, b: Bytes, p: Bytes)
    requires |b| == 8 + |p| && ReadNum(b, 0, 4) == Ok(Read(XPC_DICTIONARY, 4)) && ReadNum(b, 4, 4) == Ok(Read(|p|, 8))
    requires ReadBytes(b, 8, |p|) == Read(p, 8 + |p|) && ReadNum(p, 0, 4) == Ok(Read(1, 4))
    ensures DecodeObject(round, b, 0) ==
            match DecodeEntries(round, p, 4, 1)
            case Err(x) => Err(x)
            case Ok(es) => Ok(Read(XDict(es.value), |b|))
  {
    hide ReadNum, ReadBytes, DecodeEntries;
  }

  /**
   * A dictionary of one NUL-free key and any value.  When the two lengths of the key agree modulo 4 it comes
   * back, unless a key inside the value does not; it is rejected for every other difference except 3; and at
   * 3 it is accepted only if the three bytes behind the value's tag are a supported tag shifted down a byte.
   */
  lemma OneEntryCases(round: Rounding, key: Text, v: Xpc)
    requires 0 !in key && EncodeObject(XDict([Entry(key, v)])).Ok?
    ensures EncodeObject(v).Ok?
    ensures var e := EncodeObject(v).value;
            var b := EncodeObject(XDict([Entry(key, v)])).value;
            var r := DecodeObject(round, b, 0);
            && (Shift(key) == 0 && GoodKeys(v)
                ==> r == Ok(Read(XDict([Entry(Utf8.Sanitized(key), Norm(round, v))]), |b|)))
            && (Shift(key) != 0 && Shift(key) != 3 ==> r.Err?)
            && (Shift(key) == 3 && r.Ok? ==> LateTag(e))
  {
    hide EncodeObject, DecodeObject, Payload, Shifted, Shift, Norm, Utf8.Sanitized, GoodKeys, EncodeKey;
    OneEntryRead(round, key, v);
    var e := EncodeObject(v).value;
    var p, end := Payload(key, e), 4 + |EncodeKey(key)|;
    ShiftedFacts(p, end, end + Shift(key), Shift(key), v);
    if Shift(key) == 0 {
      if GoodKeys(v) {
        DecodeAt(round, p, end, v);
      }
    } else if DecodeObject(round, p, end + Shift(key)).Ok? {
      MisreadTag(round, p, end, end + Shift(key), Shift(key), v);
    }
  }

  /** For a null value nothing can be misread: the dictionary comes back exactly when the lengths agree. */
  lemma OneNullExactlyWhen(round: Rounding, key: Text)
    requires 0 !in key && EncodeObject(XDict([Entry(key, XNull)])).Ok?
    ensures DecodeObject(round, EncodeObject(XDict([Entry(key, XNull)])).value, 0).Ok?
            <==> |Utf8.Encode(key)| % 4 == |key| % 4
  {
    hide EncodeDictionary, DecodeObject, Utf8.Encode, LE;
    assert EncodeObject(XNull) == Ok(LE(XPC_NULL, 4));
    OneEntryCases(round, key, XNull);
  }

  lemma ShiftedFacts(b: Bytes, end: nat, at: nat, shift: int, v: Xpc)
    requires Shifted(b, end, at, shift, v)
    ensures EncodeObject(v).Ok? && At(b, end, EncodeObject(v).value) && |b| == end + |EncodeObject(v).value|
  {
    hide EncodeObject;
  }

  // ----- what three bytes late can give -----

  lemma {:induction false} DecodeShort(s: Bytes)
    ensures |Utf8.Decode(s)| <= |s|
  {
    if s != [] {
      var d := Utf8.DecodeFirst(s);
      DecodeShort(s[d.size..]);
      OnePointShort(s);
    }
  }

  lemma OnePointShort(s: Bytes)
    requires s != []
    ensures |Utf8.Units(Utf8.DecodeFirst(s).point)| <= Utf8.DecodeFirst(s).size
  {
  }

  lemma {:induction false} HexLength(b: Bytes)
    ensures |Hex(b)| == 2 * |b|
  {
    if b != [] {
      HexLength(b[1..]);
    }
  }

  /** Nine bytes are too few for a number or a date, and give short data and short text. */
  lemma FewBytes(round: Rounding, b: Bytes, at: nat)
    requires at <= |b| && DecodeObject(round, b, at).Ok?
    ensures var v := DecodeObject(round, b, at).value.value;
            && at + 4 <= |b|
            && (|b| - at < 12 ==> !v.XInt? && !v.XReal? && !v.XDate?)
            && (v.XData? ==> |v.bytes| + 8 <= |b| - at)
            && (v.XStr? && |b| - at < 20 ==> |v.s| < 32) && !v.XUuid? && !v.XBig?
  {
    hide DecodeItems, DecodeDictionary, Utf8.Decode, Hex, FromLE, IndexOfZero;
    if at + 4 <= |b| && FromLE(b[at..at + 4]) == XPC_STRING {
      TextIsShort(round, b, at);
    } else if at + 4 <= |b| && FromLE(b[at..at + 4]) == XPC_UUID {
      HexLength(JsSlice(b, at + 4, at + 20));
    }
  }

  lemma TextIsShort(round: Rounding, b: Bytes, at: nat)
    requires at + 4 <= |b| && FromLE(b[at..at + 4]) == XPC_STRING && DecodeObject(round, b, at).Ok?
    ensures DecodeObject(round, b, at).value.value.XStr? && |DecodeObject(round, b, at).value.value.s| + 8 <= |b| - at
  {
    hide DecodeItems, DecodeDictionary, Utf8.Decode, FromLE, Hex;
    var len := ReadNum(b, at + 4, 4).value.value;
    var data := ReadBytes(b, at + 8, len).value;
    DecodeShort(JsSlice(data, 0, IndexOfZero(data)));
  }

  /** Values whose misreading is compared with what was sent: all but strings, arrays and dictionaries. */
  predicate Comparable(v: Xpc) {
    !v.XStr? && !v.XArr? && !v.XDict?
  }

  /** Three bytes late, null and booleans are rejected, and no other plain value comes back as itself. */
  lemma MisreadIsWrong(round: Rounding, b: Bytes, end: nat, v: Xpc)
    requires Shifted(b, end, end + 3, 3, v) && Comparable(v) && DecodeObject(round, b, end + 3).Ok?
    ensures !v.XNull? && !v.XBool? && DecodeObject(round, b, end + 3).value.value != Norm(round, v)
  {
    hide DecodeObject, LE, Hex, FromLE, Supported;
    MisreadTag(round, b, end, end + 3, 3, v);
    FewBytes(round, b, end + 3);
    match v
    case XNull => assert false;
    case XBool(x) => NoTagInBool(x); assert false;
    case XUuid(id) => HexLength(id);
    case XData(bytes) => DataLength(bytes);
    case _ =>
  }

  lemma NoTagInBool(x: bool)
    ensures EncodeObject(XBool(x)).value[4] <= 1 && !Supported(0) && !Supported(256)
  {
    hide LE;
  }

  /** Data whose length field begins with a shifted tag is a multiple of 4 long, and has no padding. */
  lemma DataLength(bytes: Bytes)
    requires EncodeObject(XData(bytes)).Ok?
    requires LateTag(EncodeObject(XData(bytes)).value)
    ensures |EncodeObject(XData(bytes)).value| == 8 + |bytes|
  {
    hide LE, FromLE;
    var n := |bytes|;
    var e := EncodeObject(XData(bytes)).value;
    var len := LE(n, 4);
    assert e[4] == len[0];
    LowByteOf(n);
    var low: int := len[0];
    assert n % 4 == low % 4;
    assert low % 4 == 0;
    assert CalcPadding(n) == 0;
  }

  lemma LowByteOf(n: nat)
    ensures LE(n, 4)[0] == n % 256 && (n % 256) % 4 == n % 4
  {
    var q, r := n / 256, n % 256;
    ModUnique(n, 4, 64 * q + r / 4, r % 4);
  }

  /** And a misread value can be accepted: three accents and a letter, with value 16, come back with null. */
  lemma SixteenReadsAsNull(round: Rounding)
    ensures var key: Text := [0xe9, 0xe9, 0xe9, 97];
            && EncodeObject(XDict([Entry(key, XInt(16))])).Ok?
            && var b := EncodeObject(XDict([Entry(key, XInt(16))])).value;
               DecodeObject(round, b, 0) == Ok(Read(XDict([Entry(key, XNull)]), |b|))
  {
    hide DecodeObject, EncodeObject, EncodeKey, Payload, Utf8.Encode, Utf8.Sanitized, Shifted;
    var key: Text := [0xe9, 0xe9, 0xe9, 97];
    AccentsEncoded();
    SixteenEncoded(key);
    OneEntryRead(round, key, XInt(16));
    var p, end := Payload(key, EncodeObject(XInt(16)).value), 4 + |EncodeKey(key)|;
    assert Shift(key) == 3;
    LateNull(round, p, end);
  }

  lemma LateNull(round: Rounding, p: Bytes, end: nat)
    requires Shifted(p, end, end + 3, 3, XInt(16))
    ensures DecodeObject(round, p, end + 3) == Ok(Read(XNull, end + 7))
  {
    hide DecodeObject, EncodeObject, LE;
    SixteenBytes();
    var e := EncodeObject(XInt(16)).value;
    assert forall i :: 0 <= i < |e| ==> p[end + i] == p[end..][i] == e[i];
    TagBytes(XPC_NULL);
    assert p[end + 3..end + 7] == [0, 16, 0, 0] == LE(XPC_NULL, 4);
    NullAt(round, p, end + 3);
  }

  lemma AccentsEncoded()
    ensures var key: Text := [0xe9, 0xe9, 0xe9, 97];
            |Utf8.Encode(key)| == 7 && Utf8.Sanitized(key) == key
  {
    var key: Text := [0xe9, 0xe9, 0xe9, 97];
    assert key[1..] == [0xe9, 0xe9, 97] && key[1..][1..] == [0xe9, 97] && key[1..][1..][1..] == [97];
    assert key[1..][1..][1..][1..] == [];
    assert Utf8.Encode(key) == Utf8.EncodePoint(0xe9) + Utf8.Encode(key[1..]);
    assert Utf8.Encode(key[1..]) == Utf8.EncodePoint(0xe9) + Utf8.Encode(key[1..][1..]);
    assert Utf8.Encode(key[1..][1..]) == Utf8.EncodePoint(0xe9) + Utf8.Encode(key[1..][1..][1..]);
    assert Utf8.Encode(key[1..][1..][1..]) == Utf8.EncodePoint(97) + Utf8.Encode([]);
    assert Utf8.NoLoneSurrogate(key[1..][1..]) && Utf8.NoLoneSurrogate(key);
    Utf8.SanitizedExactlyWhen(key);
  }

  lemma SixteenBytes()
    ensures EncodeObject(XInt(16)) == Ok([0, 0x30, 0, 0] + ([16, 0, 0, 0] + LE(0, 4)))
  {
    hide LE, Pow256;
    Pow256Values();
    SmallMod(16, Pow256(8));
    TagBytes(XPC_INT64);
    LowBytes();
  }

  lemma LowBytes()
    ensures LE(16, 8) == [16, 0, 0, 0] + LE(0, 4)
  {
    hide LE;
    LEStep(16, 8);
    LEStep(0, 7);
    LEStep(0, 6);
    LEStep(0, 5);
  }

  lemma LEStep(n: nat, w: nat)
    requires w > 0
    ensures LE(n, w) == [n % 256] + LE(n / 256, w - 1)
  {
  }

  lemma SixteenEncoded(key: Text)
    requires |Utf8.Encode(key)| == 7
    ensures EncodeObject(XDict([Entry(key, XInt(16))])).Ok?
  {
    hide LE, Utf8.Encode, EncodeObject;
    SixteenBytes();
    var es := [Entry(key, XInt(16))];
    DictIsDictionary(es);
    assert es[..0] == [] && EncodeEntries(es[..0]) == Ok([]);
    assert |EncodeKey(key)| <= 11;
  }
}
