/** UTF-8 as RFC 3629 gives it, and UTF-16 surrogate pairs, in numbers. */
module Utf8Bytes {
  import opened Bytes
  import opened Utf8

  /** The bytes of a code point, by section 3 of RFC 3629; a lone surrogate is written as U+FFFD. */
  predicate IsPoint(b: Bytes, c: CodePoint) {
    || (c < 0x80 && b == [c])
    || (0x80 <= c < 0x800 && |b| == 2 && 0xC2 <= b[0] <= 0xDF && 0x80 <= b[1] <= 0xBF
        && c == 0x40 * (b[0] as int - 0xC0) + (b[1] as int - 0x80))
    || (0xD800 <= c <= 0xDFFF && b == [0xEF, 0xBF, 0xBD])
    || (0x800 <= c < 0x1_0000 && !(0xD800 <= c <= 0xDFFF) && |b| == 3 && 0xE0 <= b[0] <= 0xEF
        && 0x80 <= b[1] <= 0xBF && 0x80 <= b[2] <= 0xBF
        && c == 0x1000 * (b[0] as int - 0xE0) + 0x40 * (b[1] as int - 0x80) + (b[2] as int - 0x80))
    || (0x1_0000 <= c && |b| == 4 && 0xF0 <= b[0] <= 0xF4
        && 0x80 <= b[1] <= 0xBF && 0x80 <= b[2] <= 0xBF && 0x80 <= b[3] <= 0xBF
        && c == 0x4_0000 * (b[0] as int - 0xF0) + 0x1000 * (b[1] as int - 0x80) + 0x40 * (b[2] as int - 0x80)
                + (b[3] as int - 0x80))
  }

  lemma PointBytes(c: CodePoint)
    ensures IsPoint(EncodePoint(c), c)
  {
    if 0x800 <= c {
      ThreeDigits(c);
    }
  }

  lemma ThreeDigits(c: int)
    requires c >= 0
    ensures c == 0x1000 * (c / 0x1000) + 0x40 * (c / 0x40 % 0x40) + c % 0x40
    ensures c == 0x4_0000 * (c / 0x4_0000) + 0x1000 * (c / 0x1000 % 0x40) + 0x40 * (c / 0x40 % 0x40) + c % 0x40
  {
    var d := c / 0x40;
    var e := d / 0x40;
    assert c == 0x40 * d + c % 0x40 && d == 0x40 * e + d % 0x40;
    ModUnique(c, 0x1000, e, 0x40 * (d % 0x40) + c % 0x40);
    assert e == 0x40 * (e / 0x40) + e % 0x40;
    ModUnique(c, 0x4_0000, e / 0x40, 0x1000 * (e % 0x40) + 0x40 * (d % 0x40) + c % 0x40);
  }

  /** A string is its code points, each in its own bytes. */
  ghost predicate IsText(b: Bytes, t: Text)
    decreases |t|
  {
    if t == [] then b == []
    else if |t| > 1 && 0xD800 <= t[0] <= 0xDBFF && 0xDC00 <= t[1] <= 0xDFFF then
      exists n: nat :: n <= |b| && IsText(b[n..], t[2..])
                       && IsPoint(b[..n], 0x1_0000 + 0x400 * (t[0] as int - 0xD800) + (t[1] as int - 0xDC00))
    else exists n: nat :: n <= |b| && IsPoint(b[..n], t[0]) && IsText(b[n..], t[1..])
  }

  lemma {:induction false} TextBytes(t: Text)
    ensures IsText(Encode(t), t)
    decreases |t|
  {
    hide EncodePoint, IsPoint;
    if t != [] {
      var w, c := FirstWidth(t), FirstPoint(t);
      TextBytes(t[w..]);
      PointBytes(c);
      var b, n := Encode(t), |EncodePoint(c)|;
      assert b[..n] == EncodePoint(c) && b[n..] == Encode(t[w..]);
    }
  }

  /** The four letters of one, two, three and four bytes. */
  lemma FourLetters()
    ensures EncodePoint(0x24) == [0x24] && EncodePoint(0xA2) == [0xC2, 0xA2]
    ensures EncodePoint(0x20AC) == [0xE2, 0x82, 0xAC] && EncodePoint(0x10348) == [0xF0, 0x90, 0x8D, 0x88]
    ensures FirstPoint([0xD83D, 0xDE00]) == 0x1F600
  {
  }
}
