/** UTF-8 as Node.js buffers read and write it, on JavaScript strings of UTF-16 code units. */
module Utf8 {
  import opened Bytes

  type CodePoint = c: int | 0 <= c <= 0x10_FFFF

  const REPLACEMENT: CodePoint := 0xFFFD

  predicate IsHigh(u: int) {
    0xD800 <= u <= 0xDBFF
  }

  predicate IsLow(u: int) {
    0xDC00 <= u <= 0xDFFF
  }

  predicate IsSurrogate(c: int) {
    0xD800 <= c <= 0xDFFF
  }

  // ----- strings as code points -----

  /** The number of code units of the first code point: 2 for a surrogate pair. */
  function FirstWidth(t: Text): (n: nat)
    requires t != []
    ensures 1 <= n <= 2 && n <= |t|
  {
    if IsHigh(t[0]) && |t| > 1 && IsLow(t[1]) then 2 else 1
  }

  /** `t.codePointAt(0)`. */
  function FirstPoint(t: Text): CodePoint
    requires t != []
  {
    if FirstWidth(t) == 2 then PairPoint(t[0], t[1]) else t[0]
  }

  function PairPoint(high: int, low: int): int {
    0x1_0000 + (high - 0xD800) * 0x400 + (low - 0xDC00)
  }

  function Units(c: CodePoint): (t: Text)
    ensures 1 <= |t| <= 2
  {
    if c < 0x1_0000 then [c] else [0xD800 + (c - 0x1_0000) / 0x400, 0xDC00 + (c - 0x1_0000) % 0x400]
  }

  lemma UnitsOfFirst(t: Text)
    requires t != []
    ensures Units(FirstPoint(t)) == t[..FirstWidth(t)]
  {
    if FirstWidth(t) == 2 {
      ModUnique(FirstPoint(t) - 0x1_0000, 0x400, t[0] - 0xD800, t[1] - 0xDC00);
    }
  }

  // ----- encoding -----

  function EncodePoint(c: CodePoint): (b: Bytes)
    ensures 1 <= |b| <= 4
  {
    if c < 0x80 then [c]
    else if c < 0x800 then [0xC0 + c / 0x40, 0x80 + c % 0x40]
    else if IsSurrogate(c) then [0xEF, 0xBF, 0xBD]
    else if c < 0x1_0000 then [0xE0 + c / 0x1000, 0x80 + c / 0x40 % 0x40, 0x80 + c % 0x40]
    else [0xF0 + c / 0x4_0000, 0x80 + c / 0x1000 % 0x40, 0x80 + c / 0x40 % 0x40, 0x80 + c % 0x40]
  }

  /** `Buffer.from(t, "utf8")`. */
  function Encode(t: Text): Bytes {
    if t == [] then [] else EncodePoint(FirstPoint(t)) + Encode(t[FirstWidth(t)..])
  }

  // ----- decoding -----

  /** How many continuation bytes a lead byte announces; 0 when it is ASCII or cannot lead. */
  function Needed(lead: Byte): nat {
    if 0xC2 <= lead <= 0xDF then 1
    else if 0xE0 <= lead <= 0xEF then 2
    else if 0xF0 <= lead <= 0xF4 then 3
    else 0
  }

  /** The bounds of the first continuation byte exclude overlong forms, surrogates and large values. */
  predicate FirstContinuation(lead: Byte, b: Byte) {
    && (if lead == 0xE0 then 0xA0 else if lead == 0xF0 then 0x90 else 0x80) <= b
    && b <= (if lead == 0xED then 0x9F else if lead == 0xF4 then 0x8F else 0xBF)
  }

  predicate Continuation(b: Byte) {
    0x80 <= b <= 0xBF
  }

  datatype Decoded = Decoded(point: CodePoint, size: nat)

  /** One decoding step; a malformed sequence becomes U+FFFD and its maximal valid part is consumed. */
  function DecodeFirst(s: Bytes): (d: Decoded)
    requires s != []
    ensures 1 <= d.size <= |s|
  {
    var lead := s[0];
    if lead < 0x80 then Decoded(lead, 1)
    else if Needed(lead) == 0 then Decoded(REPLACEMENT, 1)
    else if |s| < 2 || !FirstContinuation(lead, s[1]) then Decoded(REPLACEMENT, 1)
    else if Needed(lead) == 1 then Decoded(Join(lead - 0xC0, s[1]), 2)
    else if |s| < 3 || !Continuation(s[2]) then Decoded(REPLACEMENT, 2)
    else if Needed(lead) == 2 then Decoded(Join(Join(lead - 0xE0, s[1]), s[2]), 3)
    else if |s| < 4 || !Continuation(s[3]) then Decoded(REPLACEMENT, 3)
    else Decoded(Join(Join(Join(lead - 0xF0, s[1]), s[2]), s[3]), 4)
  }

  /** Six more bits. */
  function Join(high: int, b: int): int {
    high * 0x40 + (b - 0x80)
  }

  /** `b.toString("utf8")`. */
  function Decode(s: Bytes): Text {
    if s == [] then [] else Units(DecodeFirst(s).point) + Decode(s[DecodeFirst(s).size..])
  }

  // ----- round trip -----

  /** Lone surrogates cannot be encoded and come back as U+FFFD. */
  function Sanitized(t: Text): Text {
    if t == [] then []
    else (if IsSurrogate(FirstPoint(t)) then [REPLACEMENT] else t[..FirstWidth(t)]) + Sanitized(t[FirstWidth(t)..])
  }

  predicate NoLoneSurrogate(t: Text) {
    t != [] ==> !IsSurrogate(FirstPoint(t)) && NoLoneSurrogate(t[FirstWidth(t)..])
  }

  lemma DecodeEncodedPoint(c: CodePoint, rest: Bytes)
    ensures DecodeFirst(EncodePoint(c) + rest)
            == Decoded(if IsSurrogate(c) then REPLACEMENT else c, |EncodePoint(c)|)
  {
    if 0x80 <= c < 0x800 {
      TwoBytes(c, rest);
    } else if 0x800 <= c < 0x1_0000 && !IsSurrogate(c) {
      ThreeBytes(c, rest);
    } else if 0x1_0000 <= c {
      FourBytes(c, rest);
    }
  }

  lemma TwoBytes(c: CodePoint, rest: Bytes)
    requires 0x80 <= c < 0x800
    ensures DecodeFirst(EncodePoint(c) + rest) == Decoded(c, 2)
  {
    var s := EncodePoint(c) + rest;
    assert s[0] == 0xC0 + c / 0x40 && s[1] == 0x80 + c % 0x40;
  }

  lemma ThreeBytes(c: CodePoint, rest: Bytes)
    requires 0x800 <= c < 0x1_0000 && !IsSurrogate(c)
    ensures DecodeFirst(EncodePoint(c) + rest) == Decoded(c, 3)
  {
    var s := EncodePoint(c) + rest;
    var d := c / 0x40;
    assert d / 0x40 == c / 0x1000;
    assert s[0] == 0xE0 + d / 0x40 && s[1] == 0x80 + d % 0x40 && s[2] == 0x80 + c % 0x40;
    assert Join(d / 0x40, s[1]) == d && Join(d, s[2]) == c;
    assert Needed(s[0]) == 2 && FirstContinuation(s[0], s[1]) && Continuation(s[2]);
  }

  lemma FourBytes(c: CodePoint, rest: Bytes)
    requires 0x1_0000 <= c
    ensures DecodeFirst(EncodePoint(c) + rest) == Decoded(c, 4)
  {
    var s := EncodePoint(c) + rest;
    var d := c / 0x40;
    var e := d / 0x40;
    assert e == c / 0x1000 && e / 0x40 == c / 0x4_0000;
    assert s[0] == 0xF0 + e / 0x40 && s[1] == 0x80 + e % 0x40 && s[2] == 0x80 + d % 0x40 && s[3] == 0x80 + c % 0x40;
    assert Join(e / 0x40, s[1]) == e && Join(e, s[2]) == d && Join(d, s[3]) == c;
    assert Needed(s[0]) == 3 && FirstContinuation(s[0], s[1]) && Continuation(s[2]) && Continuation(s[3]);
  }

  lemma {:induction false} DecodeEncode(t: Text)
    ensures Decode(Encode(t)) == Sanitized(t)
  {
    if t != [] {
      hide EncodePoint, DecodeFirst, Units, FirstPoint, FirstWidth;
      var c, n := FirstPoint(t), FirstWidth(t);
      DecodeEncode(t[n..]);
      DecodeEncodedPoint(c, Encode(t[n..]));
      assert Encode(t)[|EncodePoint(c)|..] == Encode(t[n..]);
      UnitsOfFirst(t);
      UnitsOfReplacement();
    }
  }

  lemma UnitsOfReplacement()
    ensures Units(REPLACEMENT) == [REPLACEMENT]
  {
  }

  lemma {:induction false} SanitizedExactlyWhen(t: Text)
    ensures |Sanitized(t)| == |t|
    ensures Sanitized(t) == t <==> NoLoneSurrogate(t)
  {
    if t != [] {
      var n := FirstWidth(t);
      SanitizedExactlyWhen(t[n..]);
      var head := if IsSurrogate(FirstPoint(t)) then [REPLACEMENT] else t[..n];
      assert t == t[..n] + t[n..];
      if IsSurrogate(FirstPoint(t)) {
        assert Sanitized(t)[0] == REPLACEMENT != t[0];
      } else if Sanitized(t) == t {
        assert Sanitized(t[n..]) == Sanitized(t)[n..] == t[n..];
      }
    }
  }

  /** Encoding and decoding restores a string exactly when it has no lone surrogate. */
  lemma RoundTrip(t: Text)
    ensures Decode(Encode(t)) == t <==> NoLoneSurrogate(t)
  {
    DecodeEncode(t);
    SanitizedExactlyWhen(t);
  }

  // ----- ASCII and NUL -----

  predicate IsAscii(t: Text) {
    forall i :: 0 <= i < |t| ==> t[i] < 0x80
  }

  lemma {:induction false} EncodeAscii(t: Text)
    requires IsAscii(t)
    ensures Encode(t) == t && Sanitized(t) == t
  {
    if t != [] {
      assert FirstWidth(t) == 1;
      EncodeAscii(t[1..]);
      assert t == [t[0]] + t[1..];
    }
  }

  lemma PointHasNul(c: CodePoint)
    ensures 0 in EncodePoint(c) <==> c == 0
  {
  }

  /** A NUL byte comes from a NUL character only. */
  lemma {:induction false} EncodeNul(t: Text)
    ensures 0 in Encode(t) <==> 0 in t
  {
    if t != [] {
      hide EncodePoint;
      var n := FirstWidth(t);
      EncodeNul(t[n..]);
      PointHasNul(FirstPoint(t));
      assert t == t[..n] + t[n..];
      assert 0 in t[..n] <==> FirstPoint(t) == 0;
    }
  }

  /** Appending text that does not begin with a low surrogate leaves the first code point alone. */
  lemma JoinFirst(a: Text, b: Text)
    requires a != [] && (b == [] || !IsLow(b[0]))
    ensures FirstWidth(a + b) == FirstWidth(a) && FirstPoint(a + b) == FirstPoint(a)
    ensures (a + b)[FirstWidth(a)..] == a[FirstWidth(a)..] + b
    ensures (a + b)[..FirstWidth(a)] == a[..FirstWidth(a)]
  {
  }

  /** UTF-8 of a concatenation, when no surrogate pair forms at the seam. */
  lemma {:induction false} EncodeJoin(a: Text, b: Text)
    requires b == [] || !IsLow(b[0])
    ensures Encode(a + b) == Encode(a) + Encode(b)
    decreases |a|
  {
    hide EncodePoint;
    if a == [] {
      assert a + b == b;
    } else {
      JoinFirst(a, b);
      EncodeJoin(a[FirstWidth(a)..], b);
    }
  }
}
