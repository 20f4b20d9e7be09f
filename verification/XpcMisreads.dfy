/** A string read three bytes late is never the string that was sent; so misreading always shows. */
module XpcMisreads {
  import opened Bytes
  import opened Wrappers
  import opened XpcFormat
  import opened XpcRoundTrip
  import opened XpcKeys
  import Utf8

  lemma {:induction false} BeforeZero(b: Bytes)
    ensures IndexOfZero(b) < 0 ==> 0 !in b
    ensures IndexOfZero(b) >= 0 ==> b[IndexOfZero(b)] == 0 && 0 !in b[..IndexOfZero(b)]
  {
    if b != [] && b[0] != 0 {
      BeforeZero(b[1..]);
      var i := IndexOfZero(b[1..]);
      if i >= 0 {
        assert b[..i + 1] == [b[0]] + b[1..][..i];
      }
    }
  }

  // ----- the bytes of a string, some of them missing -----

  lemma {:induction false} EncodeShort(t: Text)
    ensures |Utf8.Encode(t)| <= 3 * |t|
  {
    if t != [] {
      EncodeShort(t[Utf8.FirstWidth(t)..]);
      assert |Utf8.EncodePoint(Utf8.FirstPoint(t))| <= 3 * Utf8.FirstWidth(t);
    }
  }

  /** Cut anywhere, the bytes of a string decode to no more units than it has. */
  lemma {:induction false} PrefixShort(u: Text, q: Bytes)
    requires q <= Utf8.Encode(u)
    ensures |Utf8.Decode(q)| <= |u|
    decreases |u|
  {
    hide Utf8.EncodePoint, Utf8.DecodeFirst, Utf8.Units, Utf8.FirstPoint, Utf8.FirstWidth;
    if q != [] {
      var c, n := Utf8.FirstPoint(u), Utf8.FirstWidth(u);
      var p := Utf8.EncodePoint(c);
      if |q| < |p| {
        assert q == p[..|q|];
        CutPoint(c, |q|);
      } else {
        var rest := q[|p|..];
        assert q == p + rest && rest <= Utf8.Encode(u[n..]);
        Utf8.DecodeEncodedPoint(c, rest);
        PointUnits(u);
        PrefixShort(u[n..], rest);
      }
    }
  }

  lemma PointUnits(u: Text)
    requires u != []
    ensures var c := Utf8.FirstPoint(u);
            |Utf8.Units(if Utf8.IsSurrogate(c) then Utf8.REPLACEMENT else c)| == Utf8.FirstWidth(u)
  {
  }

  /** The beginning of a code point decodes to one replacement character. */
  lemma CutPoint(c: Utf8.CodePoint, k: nat)
    requires 0 < k < |Utf8.EncodePoint(c)|
    ensures |Utf8.Decode(Utf8.EncodePoint(c)[..k])| == 1
  {
    hide Utf8.Encode;
    var p := Utf8.EncodePoint(c);
    var q := p[..k];
    assert q[0] == p[0] && (k > 1 ==> q[1] == p[1]) && (k > 2 ==> q[2] == p[2]);
    if 0x1_0000 <= c {
      Utf8.FourBytes(c, []);
      assert p + [] == p;
    } else if 0x800 <= c && !Utf8.IsSurrogate(c) {
      Utf8.ThreeBytes(c, []);
      assert p + [] == p;
    }
    assert Utf8.DecodeFirst(q) == Utf8.Decoded(Utf8.REPLACEMENT, k);
    assert q[k..] == [];
    assert Utf8.Decode(q[k..]) == [];
  }

  lemma Continues(c: Utf8.CodePoint, d: nat)
    requires 0 < d < |Utf8.EncodePoint(c)|
    ensures 0x80 <= Utf8.EncodePoint(c)[d] <= 0xBF
  {
  }

  /** Without its first `d` bytes a string's encoding is that of a shorter string, or begins inside a code point. */
  lemma {:induction false} Dropped(s: Text, d: nat) returns (u: Text)
    requires 0 < d < |Utf8.Encode(s)|
    ensures |u| < |s|
    ensures Utf8.Encode(s)[d..] == Utf8.Encode(u) || 0x80 <= Utf8.Encode(s)[d] <= 0xBF
    ensures s != [] && (d == |Utf8.EncodePoint(Utf8.FirstPoint(s))| ==> Utf8.Encode(s)[d..] == Utf8.Encode(u))
    decreases |s|
  {
    hide Utf8.EncodePoint, Utf8.FirstPoint, Utf8.FirstWidth;
    var c, n := Utf8.FirstPoint(s), Utf8.FirstWidth(s);
    var p := Utf8.EncodePoint(c);
    u := s[n..];
    if d < |p| {
      Continues(c, d);
    } else if d > |p| {
      assert Utf8.Encode(s)[d..] == Utf8.Encode(u)[d - |p|..];
      u := Dropped(u, d - |p|);
    }
  }

  /** Three bytes late and possibly cut, a string without NUL does not decode to itself. */
  lemma LateText(s: Text, q: Bytes)
    requires |Utf8.Encode(s)| > 3 && q <= Utf8.Encode(s)[3..]
    ensures Utf8.Decode(q) != s
  {
    hide Utf8.Encode, Utf8.EncodePoint, Utf8.FirstPoint, Utf8.FirstWidth;
    var u := Dropped(s, 3);
    if q != [] && Utf8.Encode(s)[3..] == Utf8.Encode(u) {
      PrefixShort(u, q);
    } else if q != [] {
      assert q[0] == Utf8.Encode(s)[3];
      LateReplaced(q);
      FirstUnit(s);
    }
  }

  lemma LateReplaced(q: Bytes)
    requires q != [] && 0x80 <= q[0] <= 0xBF
    ensures Utf8.Decode(q) != [] && Utf8.Decode(q)[0] == Utf8.REPLACEMENT
  {
    assert Utf8.DecodeFirst(q).point == Utf8.REPLACEMENT;
  }

  /** The replacement character takes three bytes. */
  lemma FirstUnit(s: Text)
    requires s != [] && |Utf8.EncodePoint(Utf8.FirstPoint(s))| != 3
    ensures s[0] != Utf8.REPLACEMENT
  {
  }

  // ----- a string object read three bytes late -----

  lemma StringBytes(s: Text)
    requires EncodeObject(XStr(s)).Ok?
    ensures var data := Utf8.Encode(s) + [0];
            && |data| < TWO32
            && EncodeObject(XStr(s)).value == LE(XPC_STRING, 4) + LE(|data|, 4) + data + Zeros(CalcPadding(|data|))
  {
    hide LE;
  }

  /** A shifted tag in its length makes the string's data long, and a multiple of 4. */
  lemma LateLength(s: Text)
    requires EncodeObject(XStr(s)).Ok? && LateTag(EncodeObject(XStr(s)).value)
    ensures |Utf8.Encode(s)| > 3 && |EncodeObject(XStr(s)).value| == 9 + |Utf8.Encode(s)|
    ensures EncodeObject(XStr(s)).value[8..] == Utf8.Encode(s) + [0]
    ensures var e := EncodeObject(XStr(s)).value; e[4] == 0xa0 ==> |Utf8.Encode(s)| > 96
  {
    hide LE, FromLE, Utf8.Encode;
    StringBytes(s);
    var data := Utf8.Encode(s) + [0];
    var n, e := |data|, EncodeObject(XStr(s)).value;
    var len := LE(n, 4);
    assert e[4] == len[0];
    LowByteOf(n);
    var low: int := len[0];
    assert low >= 0x10 && low % 4 == 0 && n >= low;
    assert CalcPadding(n) == 0;
    assert e[8..] == data + Zeros(0) == data;
  }

  lemma TagAt(b: Bytes, at: nat, end: nat, e: Bytes, tag: nat)
    requires at == end + 3 && |b| == end + |e| && b[end..] == e && |e| >= 7 && Supported(tag)
    requires FromLE(b[at..at + 4]) == tag
    ensures e[4] as int == tag / 256
  {
    hide FromLE, LE, Supported;
    var w := b[at..at + 4];
    FourBytes(w);
    assert w[1] == b[end..][4];
    var x: int := w[1];
    assert tag == 256 * x;
  }

  /** What the late reader takes for text. */
  lemma LateString(round: Rounding, b: Bytes, at: nat) returns (q: Bytes)
    requires at + 8 <= |b| && FromLE(b[at..at + 4]) == XPC_STRING && DecodeObject(round, b, at).Ok?
    ensures DecodeObject(round, b, at).value.value == XStr(Utf8.Decode(q)) && 0 !in q && q <= b[at + 8..]
  {
    hide DecodeItems, DecodeDictionary, Utf8.Decode, FromLE, Hex, IndexOfZero;
    var len := ReadNum(b, at + 4, 4).value.value;
    var data := ReadBytes(b, at + 8, len).value;
    BeforeZero(data);
    q := JsSlice(data, 0, IndexOfZero(data));
    assert data <= b[at + 8..];
  }

  lemma NoNulIn(q: Bytes, x: Bytes)
    requires 0 !in q && q <= x + [0]
    ensures q <= x
  {
    assert 0 in x + [0] by {
      assert (x + [0])[|x|] == 0;
    }
    assert q != x + [0];
  }

  /** Three bytes late, a string is never read as itself. */
  lemma StringIsWrong(round: Rounding, b: Bytes, end: nat, s: Text)
    requires Shifted(b, end, end + 3, 3, XStr(s)) && DecodeObject(round, b, end + 3).Ok?
    ensures DecodeObject(round, b, end + 3).value.value != XStr(s)
  {
    hide DecodeObject, EncodeObject, FromLE, LE, Utf8.Encode, Utf8.Decode, Supported;
    var e, at := EncodeObject(XStr(s)).value, end + 3;
    MisreadTag(round, b, end, at, 3, XStr(s));
    OnlySupported(round, b, at);
    LateLength(s);
    assert b[at + 8..] == e[11..] == e[8..][3..];
    var tag := FromLE(b[at..at + 4]);
    if tag == XPC_STRING {
      var q := LateString(round, b, at);
      assert e[8..][3..] == Utf8.Encode(s)[3..] + [0];
      NoNulIn(q, Utf8.Encode(s)[3..]);
      LateText(s, q);
    } else if tag == XPC_UUID {
      UuidSupported();
      TagAt(b, at, end, e, XPC_UUID);
      LateUuid(round, b, at);
      EncodeShort(s);
    } else {
      NoText(round, b, at);
    }
  }

  lemma UuidSupported()
    ensures Supported(XPC_UUID)
  {
  }

  lemma LateUuid(round: Rounding, b: Bytes, at: nat)
    requires at + 4 <= |b| && FromLE(b[at..at + 4]) == XPC_UUID && DecodeObject(round, b, at).Ok?
    ensures var v := DecodeObject(round, b, at).value.value; v.XStr? && |v.s| <= 32
  {
    hide DecodeItems, DecodeDictionary, FromLE, Hex;
    HexLength(JsSlice(b, at + 4, at + 20));
  }

  lemma NoText(round: Rounding, b: Bytes, at: nat)
    requires at + 4 <= |b| && FromLE(b[at..at + 4]) != XPC_STRING && FromLE(b[at..at + 4]) != XPC_UUID
    requires DecodeObject(round, b, at).Ok?
    ensures !DecodeObject(round, b, at).value.value.XStr?
  {
    hide DecodeItems, DecodeDictionary, FromLE, Hex;
  }

  // ----- dictionaries of one entry come back exactly when -----

  /** Whatever the key is, the decoded dictionary has the key its reader read. */
  lemma KeyDecides(round: Rounding, key: Text, v: Xpc)
    requires EncodeObject(XDict([Entry(key, v)])).Ok? && 0 in key
    ensures var b := EncodeObject(XDict([Entry(key, v)])).value;
            forall next :: DecodeObject(round, b, 0) != Ok(Read(XDict([Entry(key, v)]), next))
  {
    hide LE, FromLE, At, Pow256, ReadBytes, EncodeKey, Utf8.Encode, Utf8.Sanitized, ReadNum, ReadKey, EncodeObject,
        DecodeObject;
    OneEntryEncoded(key, v);
    var e, k, count := EncodeObject(v).value, EncodeKey(key), LE(1, 4);
    var p := Payload(key, e);
    var b := EncodeObject(XDict([Entry(key, v)])).value;
    WholeAt(b, []);
    assert b + [] == b;
    PayloadAt(b, 0, XPC_DICTIONARY, p);
    WholeAt(count, k + e);
    AtSplit(p, 4, k, e);
    Read32At(p, 0, 1);
    DictionaryPayload(round, b, p);
    var x, y := FirstNul(key);
    KeyWithNul(p, 4, x, y);
    Utf8.SanitizedExactlyWhen(x);
    OneKey(round, p, key, v);
  }

  lemma OneKey(round: Rounding, p: Bytes, key: Text, v: Xpc)
    requires ReadKey(p, 4).Ok? && |ReadKey(p, 4).value.value| < |key| && |p| >= 4
    ensures forall r :: DecodeEntries(round, p, 4, 1) == Ok(r) ==> r.value != [Entry(key, v)]
  {
    hide ReadKey, DecodeObject;
    assert DecodeEntries(round, p, 4, 0) == Ok(Read([], 4));
  }

  /** Three bytes late no value that is not a container is read as itself. */
  lemma LateIsWrong(round: Rounding, b: Bytes, end: nat, v: Xpc)
    requires Shifted(b, end, end + 3, 3, v) && !v.XArr? && !v.XDict? && DecodeObject(round, b, end + 3).Ok?
    ensures DecodeObject(round, b, end + 3).value.value != v
  {
    hide DecodeObject, EncodeObject, Shifted;
    if v.XStr? {
      StringIsWrong(round, b, end, v.s);
    } else {
      MisreadIsWrong(round, b, end, v);
      FewBytes(round, b, end + 3);
      ShiftedFacts(b, end, end + 3, 3, v);
      NumberLength(v);
    }
  }

  lemma NumberLength(v: Xpc)
    requires EncodeObject(v).Ok?
    ensures v.XInt? ==> |EncodeObject(v).value| == 12
  {
    hide LE, Unsigned;
  }

  /**
   * A dictionary of one entry, the value no array or dictionary, is decoded to itself exactly when the key
   * has no NUL and no lone surrogate, its two lengths agree modulo 4, and the value alone comes back.
   */
  lemma OneEntryReturnsExactlyWhen(round: Rounding, key: Text, v: Xpc)
    requires EncodeObject(XDict([Entry(key, v)])).Ok? && !v.XArr? && !v.XDict?
    ensures var b := EncodeObject(XDict([Entry(key, v)])).value;
            DecodeObject(round, b, 0) == Ok(Read(XDict([Entry(key, v)]), |b|))
            <==> CleanText(key) && |Utf8.Encode(key)| % 4 == |key| % 4 && Norm(round, v) == v
  {
    hide EncodeObject, DecodeObject, Payload, Shifted, Norm, Utf8.Sanitized, EncodeKey, Utf8.Encode,
        Utf8.NoLoneSurrogate;
    if 0 in key {
      KeyDecides(round, key, v);
    } else {
      OneEntryRead(round, key, v);
      OneEntryCases(round, key, v);
      Utf8.SanitizedExactlyWhen(key);
      var p, end := Payload(key, EncodeObject(v).value), 4 + |EncodeKey(key)|;
      if Shift(key) == 3 && DecodeObject(round, p, end + 3).Ok? {
        LateIsWrong(round, p, end, v);
      }
    }
  }
}
