/** How the XPC decoder reads the bytes of any buffer, tag by tag. */
module XpcTags {
  import opened Bytes
  import opened Wrappers
  import opened XpcFormat
  import opened XpcRoundTrip
  import Utf8
  import O = ByteOrder

  /** A tag at `at`: its second byte counts, the other three are zero. */
  predicate TagAt(b: Bytes, at: nat, high: Byte) {
    at + 4 <= |b| && b[at] == 0 && b[at + 1] == high && b[at + 2] == 0 && b[at + 3] == 0
  }

  lemma TagRead(b: Bytes, at: nat, high: Byte)
    requires TagAt(b, at, high)
    ensures ReadNum(b, at, 4) == Ok(Read(0x100 * high as int, at + 4))
  {
    hide FromLE;
    O.FourBytes(b[at..at + 4]);
  }

  /** Bytes that are no tag of a supported type. */
  lemma UnknownRead(round: Rounding, b: Bytes, at: nat)
    requires at + 4 <= |b|
    requires forall high: Byte :: TagAt(b, at, high) ==>
               high !in {0x10, 0x20, 0x30, 0x40, 0x50, 0x70, 0x80, 0x90, 0xa0, 0xe0, 0xf0}
    ensures DecodeObject(round, b, at) == Err(TypeError)
  {
    hide FromLE, DecodeItems, DecodeDictionary, Hex, Utf8.Decode;
    var w := b[at..at + 4];
    O.FourBytes(w);
    var n := FromLE(w);
    var p: int, q: int, r: int, s: int := b[at], b[at + 1], b[at + 2], b[at + 3];
    assert n == p + 0x100 * q + 0x1_0000 * r + 0x100_0000 * s;
    if n < 0x1_0000 && n % 0x100 == 0 {
      ModUnique(n, 0x100, q, p);
      assert TagAt(b, at, b[at + 1]);
    }
  }

  /** Two's complement of eight bytes. */
  function Signed64(u: nat): int {
    if u < 0x8000_0000_0000_0000 then u else u - 0x1_0000_0000_0000_0000
  }

  lemma SignedRead(s: Bytes)
    requires |s| == 8
    ensures Signed(FromLE(s), 8) == Signed64(FromLE(s))
  {
    hide FromLE;
    Pow256Values();
    FromLEBound(s);
    SmallMod(FromLE(s), TWO64);
  }

  /** Null, booleans, numbers, dates and UUIDs; integers go through the rounding to doubles. */
  lemma ScalarsRead(round: Rounding, b: Bytes, at: nat)
    ensures TagAt(b, at, 0x10) ==> DecodeObject(round, b, at) == Ok(Read(XNull, at + 4))
    ensures TagAt(b, at, 0x20) && at + 4 < |b| ==>
              DecodeObject(round, b, at) == Ok(Read(XBool(b[at + 4] != 0), at + 8))
    ensures TagAt(b, at, 0x30) && at + 12 <= |b| ==>
              DecodeObject(round, b, at) == Ok(Read(XInt(round(Signed64(FromLE(b[at + 4..at + 12])))), at + 12))
    ensures TagAt(b, at, 0x40) && at + 12 <= |b| ==>
              DecodeObject(round, b, at) == Ok(Read(XInt(round(FromLE(b[at + 4..at + 12]))), at + 12))
    ensures TagAt(b, at, 0x50) && at + 12 <= |b| ==>
              DecodeObject(round, b, at) == Ok(Read(XReal(b[at + 4..at + 12]), at + 12))
    ensures TagAt(b, at, 0x70) && at + 12 <= |b| ==>
              var n := Signed64(FromLE(b[at + 4..at + 12]));
              DecodeObject(round, b, at) == Ok(Read(XDate(if n < 0 then -((-n) / 1000000) else n / 1000000), at + 12))
    ensures TagAt(b, at, 0xa0) && at + 20 <= |b| ==>
              DecodeObject(round, b, at) == Ok(Read(XStr(Hex(b[at + 4..at + 20])), at + 20))
  {
    hide FromLE, Signed, Hex, DecodeItems, DecodeDictionary;
    if at + 4 <= |b| {
      AnyTagRead(b, at);
    }
    if at + 12 <= |b| {
      SignedRead(b[at + 4..at + 12]);
    }
  }

  lemma AnyTagRead(b: Bytes, at: nat)
    requires at + 4 <= |b|
    ensures forall high: Byte :: TagAt(b, at, high) ==> ReadNum(b, at, 4) == Ok(Read(0x100 * high as int, at + 4))
  {
    hide ReadNum;
    forall high: Byte | TagAt(b, at, high)
      ensures ReadNum(b, at, 4) == Ok(Read(0x100 * high as int, at + 4))
    {
      TagRead(b, at, high);
    }
  }

  /** A UUID as lower-case hexadecimal digits, the higher half of a byte first. */
  lemma {:induction false} HexDigits(b: Bytes)
    ensures |Hex(b)| == 2 * |b|
    ensures forall i :: 0 <= i < |b| ==>
              && Hex(b)[2 * i] == "0123456789abcdef"[b[i] / 16] as int
              && Hex(b)[2 * i + 1] == "0123456789abcdef"[b[i] % 16] as int
  {
    if b != [] {
      HexDigits(b[1..]);
      DigitIs(b[0] / 16);
      DigitIs(b[0] % 16);
      var h := Hex(b);
      forall i | 0 <= i < |b|
        ensures h[2 * i] == "0123456789abcdef"[b[i] / 16] as int && h[2 * i + 1] == "0123456789abcdef"[b[i] % 16] as int
      {
        if i > 0 {
          assert b[1..][i - 1] == b[i] && h[2 * i] == Hex(b[1..])[2 * (i - 1)]
              && h[2 * i + 1] == Hex(b[1..])[2 * (i - 1) + 1];
        }
      }
    }
  }

  lemma DigitIs(d: int)
    requires 0 <= d < 16
    ensures HexDigit(d) == "0123456789abcdef"[d] as int
  {
  }

  /** How many bytes bring a length to a multiple of four. */
  lemma PaddingIs(n: nat)
    ensures CalcPadding(n) < 4 && (n + CalcPadding(n)) % 4 == 0
  {
  }

  /** The payload behind a tag and a length. */
  predicate PayloadIn(b: Bytes, at: nat, high: Byte, d: Bytes) {
    && TagAt(b, at, high) && at + 8 + |d| <= |b| && b[at + 8..at + 8 + |d|] == d
    && |d| == b[at + 4] as int + 0x100 * b[at + 5] as int + 0x1_0000 * b[at + 6] as int + 0x100_0000 * b[at + 7] as int
  }

  lemma PayloadRead(b: Bytes, at: nat, high: Byte, d: Bytes)
    requires PayloadIn(b, at, high, d)
    ensures ReadNum(b, at, 4) == Ok(Read(0x100 * high as int, at + 4))
    ensures ReadNum(b, at + 4, 4) == Ok(Read(|d|, at + 8)) && ReadBytes(b, at + 8, |d|) == Read(d, at + 8 + |d|)
  {
    hide FromLE;
    TagRead(b, at, high);
    O.FourBytes(b[at + 4..at + 8]);
  }

  /** Data and strings; a string ends at its first NUL, or before its last byte when it has none. */
  lemma SizedRead(round: Rounding, b: Bytes, at: nat, d: Bytes)
    ensures PayloadIn(b, at, 0x80, d) ==>
              DecodeObject(round, b, at) == Ok(Read(XData(d), at + 8 + |d| + CalcPadding(|d|)))
    ensures PayloadIn(b, at, 0x90, d) && 0 !in d ==>
              DecodeObject(round, b, at)
              == Ok(Read(XStr(Utf8.Decode(if d == [] then [] else d[..|d| - 1])), at + 8 + |d| + CalcPadding(|d|)))
    ensures forall z :: PayloadIn(b, at, 0x90, d) && 0 <= z < |d| && d[z] == 0 && 0 !in d[..z] ==>
              DecodeObject(round, b, at) == Ok(Read(XStr(Utf8.Decode(d[..z])), at + 8 + |d| + CalcPadding(|d|)))
  {
    hide FromLE, ReadNum, ReadBytes, CalcPadding, Utf8.Decode, DecodeItems, DecodeDictionary, Hex, IndexOfZero,
        PayloadIn;
    if PayloadIn(b, at, 0x80, d) {
      PayloadRead(b, at, 0x80, d);
    }
    if PayloadIn(b, at, 0x90, d) {
      PayloadRead(b, at, 0x90, d);
      ZeroIndex(d);
    }
  }

  lemma {:induction false} ZeroIndex(d: Bytes)
    ensures 0 !in d ==> IndexOfZero(d) == -1
    ensures forall z :: 0 <= z < |d| && d[z] == 0 && 0 !in d[..z] ==> IndexOfZero(d) == z
  {
    if d != [] {
      ZeroIndex(d[1..]);
      forall z | 0 <= z < |d| && d[z] == 0 && 0 !in d[..z]
        ensures IndexOfZero(d) == z
      {
        if z > 0 {
          assert d[..z][0] == d[0];
          assert d[1..][z - 1] == 0 && d[1..][..z - 1] == d[1..z] && forall x :: x in d[1..z] ==> x in d[..z];
        }
      }
    }
  }

  /** Arrays and dictionaries: a count in front, then that many items, or keys with their values. */
  lemma ContainersRead(round: Rounding, b: Bytes, at: nat, d: Bytes)
    requires |d| >= 4
    ensures var n := d[0] as int + 0x100 * d[1] as int + 0x1_0000 * d[2] as int + 0x100_0000 * d[3] as int;
            && (PayloadIn(b, at, 0xe0, d) && DecodeItems(round, d, 4, n).Ok? ==>
                  DecodeObject(round, b, at) == Ok(Read(XArr(DecodeItems(round, d, 4, n).value.value), at + 8 + |d|)))
            && (PayloadIn(b, at, 0xf0, d) && DecodeEntries(round, d, 4, n).Ok? ==>
                  DecodeObject(round, b, at)
                      == Ok(Read(XDict(DecodeEntries(round, d, 4, n).value.value), at + 8 + |d|)))
  {
    hide FromLE, ReadNum, ReadBytes, Utf8.Decode, DecodeItems, DecodeEntries, Hex, PayloadIn;
    O.FourBytes(d[0..4]);
    CountRead(d);
    if PayloadIn(b, at, 0xe0, d) {
      PayloadRead(b, at, 0xe0, d);
    }
    if PayloadIn(b, at, 0xf0, d) {
      PayloadRead(b, at, 0xf0, d);
    }
  }

  lemma CountRead(d: Bytes)
    requires |d| >= 4
    ensures ReadNum(d, 0, 4) == Ok(Read(FromLE(d[0..4]), 4))
  {
  }

  /** A message is read only behind its magic, and only when it is there whole. */
  lemma MessageRead(round: Rounding, b: Bytes)
    ensures |b| < 24 || b[..4] != [0x92, 0x0b, 0xb0, 0x29] ==> DecodeMessage(round, b).Err?
    ensures |b| >= 24 && |b| < 24 + FromLE(b[8..16]) ==> DecodeMessage(round, b).Err?
    ensures |b| >= 24 && b[..4] == [0x92, 0x0b, 0xb0, 0x29] && FromLE(b[8..16]) == 0 ==>
              DecodeMessage(round, b) == Ok(Read(Message(FromLE(b[4..8]), FromLE(b[16..24]), None), 24))
    ensures |b| >= 32 && b[24..32] != [0x42, 0x37, 0x13, 0x42, 5, 0, 0, 0] && FromLE(b[8..16]) > 0 ==>
              DecodeMessage(round, b).Err?
  {
    hide FromLE, DecodeObject, LE;
    if |b| >= 24 {
      MagicRead(b[..4], WRAPPER_MAGIC, [0x92, 0x0b, 0xb0, 0x29]);
      assert b[0..4] == b[..4];
    }
    if |b| >= 32 {
      MagicRead(b[24..28], OBJECT_MAGIC, [0x42, 0x37, 0x13, 0x42]);
      MagicRead(b[28..32], BODY_VERSION, [5, 0, 0, 0]);
      assert b[24..32] == b[24..28] + b[28..32];
    }
  }

  lemma MagicRead(s: Bytes, n: nat, magic: Bytes)
    requires |s| == 4 && |magic| == 4
    requires n == magic[0] as int + 0x100 * magic[1] as int + 0x1_0000 * magic[2] as int + 0x100_0000 * magic[3] as int
    ensures FromLE(s) == n <==> s == magic
  {
    hide FromLE, LE;
    O.FourBytes(magic);
    O.OneWriting(s);
    O.OneWriting(magic);
  }
}
