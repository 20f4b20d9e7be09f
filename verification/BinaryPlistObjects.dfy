/** Reading back one encoded object: the parser's first phase undoes each per-type encoder. */
module BinaryPlistObjects {
  import opened Bytes
  import opened Wrappers
  import opened PlistGraph
  import opened BinaryPlistFormat
  import opened BinaryPlistReading
  import opened BinaryPlistLayout

  /** The bytes `d` stand at `offset`. */
  predicate At(buf: Bytes, offset: int, d: Bytes) {
    0 <= offset && offset + |d| <= |buf| && buf[offset..offset + |d|] == d
  }

  lemma AtSplit(buf: Bytes, offset: int, a: Bytes, b: Bytes)
    requires At(buf, offset, a + b)
    ensures At(buf, offset, a) && At(buf, offset + |a|, b)
  {
    var d := buf[offset..offset + |a + b|];
    assert buf[offset..offset + |a|] == d[..|a|] == a;
    assert buf[offset + |a|..offset + |a| + |b|] == d[|a|..] == b;
  }

  lemma AtSub(buf: Bytes, offset: int, d: Bytes, lo: nat, hi: nat)
    requires At(buf, offset, d) && lo <= hi <= |d|
    ensures At(buf, offset + lo, d[lo..hi])
  {
    assert d == d[..lo] + (d[lo..hi] + d[hi..]);
    AtSplit(buf, offset, d[..lo], d[lo..hi] + d[hi..]);
    AtSplit(buf, offset + lo, d[lo..hi], d[hi..]);
  }

  lemma AtByte(buf: Bytes, offset: int, d: Bytes, k: nat)
    requires At(buf, offset, d) && k < |d|
    ensures ReadUInt8(buf, offset + k) == Ok(d[k])
  {
    assert buf[offset + k] == buf[offset..offset + |d|][k];
  }

  lemma ReadIntAt(buf: Bytes, offset: int, n: nat, w: nat)
    requires At(buf, offset, BE(n, w)) && n < Pow256(w) && n < TWO31 && w > 0
    ensures ReadInt(buf, offset, w) == Ok(n)
  {
    BERoundTrip(n, w);
    ToInt32Small(n);
  }

  lemma ReadSignedAt(buf: Bytes, offset: int, n: nat, w: nat)
    requires At(buf, offset, BE(n, w)) && n < Pow256(w)
    ensures ReadSigned(buf, offset, w) == Ok(Signed(n, w))
  {
    BERoundTrip(n, w);
  }

  lemma BEOne(n: Byte)
    ensures BE(n, 1) == [n]
  {
    assert BE(n / 256, 0) == [];
  }

  lemma Pow2Values()
    ensures Pow2(0) == 1 && Pow2(1) == 2 && Pow2(2) == 4 && Pow2(3) == 8
  {
    assert Pow2(1) == 2 * Pow2(0);
    assert Pow2(2) == 2 * Pow2(1);
    assert Pow2(3) == 2 * Pow2(2);
  }

  // ----- headers -----

  lemma ShortHeader(buf: Bytes, offset: int, marker: Byte, rest: Bytes)
    requires At(buf, offset, [marker] + rest) && marker % 16 != 15
    ensures HeaderAt(buf, offset) == Ok(ObjectHeader(marker - marker % 16, marker % 16, offset + 1, marker % 16))
    ensures At(buf, offset + 1, rest)
  {
    AtByte(buf, offset, [marker] + rest, 0);
    AtSplit(buf, offset, [marker], rest);
  }

  lemma IntHeaderCase(buf: Bytes, offset: int, n: nat, info: nat, w: nat)
    requires info < 15 && w > 0 && Pow2(info) == w && n < Pow256(w) && n < TWO31
    requires At(buf, offset, [T_INT + info] + BE(n, w))
    ensures ReadUInt8(buf, offset) == Ok(T_INT + info) && ReadInt(buf, offset + 1, w) == Ok(n)
  {
    hide ReadInt, BE, Pow2, At;
    AtByte(buf, offset, [T_INT + info] + BE(n, w), 0);
    AtSplit(buf, offset, [T_INT + info], BE(n, w));
    ReadIntAt(buf, offset + 1, n, w);
  }

  lemma IntHeaderAt(buf: Bytes, offset: int, n: nat)
    requires n < TWO31 && At(buf, offset, IntHeader(n).value)
    ensures var d := IntHeader(n).value;
            && ReadUInt8(buf, offset) == Ok(d[0]) && d[0] - d[0] % 16 == T_INT
            && |d| == 1 + Pow2(d[0] % 16)
            && ReadInt(buf, offset + 1, Pow2(d[0] % 16)) == Ok(n)
  {
    hide ReadInt, ReadUInt8, BE, Pow2, Pow256, At;
    Pow2Values();
    Pow256Values();
    if n < 256 {
      BEOne(n);
      assert [T_INT, n] == [T_INT + 0] + BE(n, 1);
      IntHeaderCase(buf, offset, n, 0, 1);
    } else if n < 0x1_0000 {
      IntHeaderCase(buf, offset, n, 1, 2);
    } else {
      IntHeaderCase(buf, offset, n, 2, 4);
    }
  }

  lemma LengthHeader(buf: Bytes, offset: int, kind: Byte, length: nat, rest: Bytes)
    requires kind <= 0xf0 && kind % 16 == 0 && length < TWO31
    requires At(buf, offset, Header(kind, length).value + rest)
    ensures var d := Header(kind, length).value;
            && HeaderAt(buf, offset) == Ok(ObjectHeader(kind, if length < 15 then length else 15, offset + |d|, length))
            && At(buf, offset + |d|, rest)
  {
    hide ReadInt, Pow2, At, BE;
    var d := Header(kind, length).value;
    AtSplit(buf, offset, d, rest);
    AtByte(buf, offset, d, 0);
    if length >= 15 {
      var size := IntHeader(length).value;
      AtSplit(buf, offset, [kind + 15], size);
      IntHeaderAt(buf, offset + 1, length);
      assert (kind + 15) % 16 == 15;
    } else {
      assert (kind + length) % 16 == length;
    }
  }

  // ----- numbers and UIDs -----

  /** One-byte integers are written unsigned and read signed. */
  function NumberReadBack(n: int): int {
    if 128 <= n <= 255 then n - 256 else n
  }

  /** UIDs of four bytes are read from the first three. */
  function UidReadBack(n: nat): nat {
    if n > 65535 then n / 256 else n
  }

  lemma ReadWide(buf: Bytes, offset: int, info: nat, w: nat, n: int)
    requires (info == 0 && w == 1) || (info == 1 && w == 2) || (info == 2 && w == 4) || (info == 3 && w == 8)
    requires -Pow256(w) <= 2 * n < Pow256(w)
    requires At(buf, offset, [T_INT + info] + BE(Unsigned(n, w), w))
    ensures ParseObjectAt(buf, offset) == Ok(Leaf(if w == 8 then NumberOrBig(n) else PNum(n)))
  {
    Pow2Values();
    SignedUnsigned(n, w);
    ShortHeader(buf, offset, T_INT + info, BE(Unsigned(n, w), w));
    ReadSignedAt(buf, offset + 1, Unsigned(n, w), w);
  }

  lemma ReadNumber(buf: Bytes, offset: int, n: int)
    requires EncodeNumber(n).Ok? && At(buf, offset, EncodeNumber(n).value) && ExactDouble(n)
    ensures ParseObjectAt(buf, offset) == Ok(Leaf(PNum(NumberReadBack(n))))
  {
    if 0 <= n <= 255 {
      ReadUnsignedByte(buf, offset, n);
    } else {
      hide ParseObjectAt, At, Unsigned, BE, Pow256;
      Pow256Values();
      if -128 <= n <= 127 {
        ReadWide(buf, offset, 0, 1, n);
      } else if -32768 <= n <= 32767 {
        ReadWide(buf, offset, 1, 2, n);
      } else if -TWO31 <= n < TWO31 {
        ReadWide(buf, offset, 2, 4, n);
      } else {
        ReadWide(buf, offset, 3, 8, n);
      }
    }
  }

  lemma ReadUnsignedByte(buf: Bytes, offset: int, n: Byte)
    requires At(buf, offset, [T_INT, n])
    ensures ParseObjectAt(buf, offset) == Ok(Leaf(PNum(NumberReadBack(n))))
  {
    Pow2Values();
    Pow256Values();
    BEOne(n);
    ShortHeader(buf, offset, T_INT, BE(n, 1));
    ReadSignedAt(buf, offset + 1, n, 1);
  }

  lemma ReadBig(buf: Bytes, offset: int, n: int)
    requires EncodeInt64(n).Ok? && At(buf, offset, EncodeInt64(n).value)
    ensures ParseObjectAt(buf, offset) == Ok(Leaf(NumberOrBig(n)))
  {
    Pow256Values();
    ReadWide(buf, offset, 3, 8, n);
  }

  lemma ReadUid(buf: Bytes, offset: int, n: int)
    requires EncodeUid(n).Ok? && At(buf, offset, EncodeUid(n).value)
    ensures n >= 0 && ParseObjectAt(buf, offset) == Ok(Leaf(PNum(UidReadBack(n))))
  {
    Pow256Values();
    if n <= 255 {
      ShortHeader(buf, offset, T_UID, BE(n, 1));
      ReadIntAt(buf, offset + 1, n, 1);
    } else if n <= 65535 {
      ShortHeader(buf, offset, T_UID + 1, BE(n, 2));
      ReadIntAt(buf, offset + 1, n, 2);
    } else {
      ShortHeader(buf, offset, T_UID + 2, BE(n, 4));
      AtSplit(buf, offset + 1, BE(n / 256, 3), [n % 256]);
      assert Pow256(4) == 256 * Pow256(3);
      ReadIntAt(buf, offset + 1, n / 256, 3);
    }
  }

  // ----- strings and data -----

  lemma {:induction false} Utf16At(s: Text, i: nat)
    requires i < |s|
    ensures Utf16BE(s)[2 * i] == s[i] / 256 && Utf16BE(s)[2 * i + 1] == s[i] % 256
    decreases |s|
  {
    var n := |s| - 1;
    if i < n {
      Utf16At(s[..n], i);
    } else {
      var last := s[n];
      assert BE(last, 2) == BE(last / 256, 1) + [last % 256];
      BEOne(last / 256);
    }
  }

  lemma Utf16UnitAt(s: Text, bytes: Bytes, i: nat)
    requires i < |s| && |bytes| == 2 * |s| && bytes[2 * i] == s[i] / 256 && bytes[2 * i + 1] == s[i] % 256
    ensures Utf16Text(bytes, |s|)[i] == s[i]
  {
  }

  lemma Utf16RoundTrip(s: Text)
    ensures Utf16Text(Utf16BE(s), |s|) == s
  {
    var bytes := Utf16BE(s);
    forall i | 0 <= i < |s|
      ensures Utf16Text(bytes, |s|)[i] == s[i]
    {
      Utf16At(s, i);
      Utf16UnitAt(s, bytes, i);
    }
  }

  lemma SliceAt(buf: Bytes, offset: int, d: Bytes)
    requires At(buf, offset, d)
    ensures JsSlice(buf, offset, offset + |d|) == d
  {
  }

  lemma ReadAscii(buf: Bytes, offset: int, s: Text)
    requires IsAscii(s) && Header(T_ASCII, |s|).Ok? && |s| < TWO31
    requires At(buf, offset, Header(T_ASCII, |s|).value + AsciiBytes(s))
    ensures ParseObjectAt(buf, offset) == Ok(Leaf(PStr(s)))
  {
    hide HeaderAt, Header, At;
    LengthHeader(buf, offset, T_ASCII, |s|, AsciiBytes(s));
    SliceAt(buf, offset + |Header(T_ASCII, |s|).value|, AsciiBytes(s));
    assert AsciiText(AsciiBytes(s)) == s;
  }

  lemma ReadUnicode(buf: Bytes, offset: int, s: Text, units: Bytes)
    requires Header(T_UNICODE, |s|).Ok? && |s| < TWO31
    requires |units| == 2 * |s| && Utf16Text(units, |s|) == s
    requires At(buf, offset, Header(T_UNICODE, |s|).value + units)
    ensures ParseObjectAt(buf, offset) == Ok(Leaf(PStr(s)))
  {
    hide HeaderAt, Header, At, Utf16Text;
    LengthHeader(buf, offset, T_UNICODE, |s|, units);
    SliceAt(buf, offset + |Header(T_UNICODE, |s|).value|, units);
  }

  lemma ReadString(buf: Bytes, offset: int, s: Text)
    requires EncodeString(s).Ok? && At(buf, offset, EncodeString(s).value) && |s| < TWO31
    ensures ParseObjectAt(buf, offset) == Ok(Leaf(PStr(s)))
  {
    if IsAscii(s) {
      ReadAscii(buf, offset, s);
    } else {
      Utf16RoundTrip(s);
      ReadUnicode(buf, offset, s, Utf16BE(s));
    }
  }

  lemma ReadData(buf: Bytes, offset: int, bytes: Bytes)
    requires EncodeData(bytes).Ok? && At(buf, offset, EncodeData(bytes).value) && |bytes| < TWO31
    ensures ParseObjectAt(buf, offset) == Ok(Blob(bytes))
  {
    hide HeaderAt, Header, At;
    LengthHeader(buf, offset, T_DATA, |bytes|, bytes);
    SliceAt(buf, offset + |Header(T_DATA, |bytes|).value|, bytes);
  }

  // ----- containers -----

  /** Where the references of a container encoded at `offset` start. */
  function RefsStart(kind: Byte, length: nat, offset: nat): nat
    requires kind <= 0xf0 && length < TWO32
  {
    offset + |Header(kind, length).value|
  }

  lemma ReadArray(buf: Bytes, offset: nat, table: seq<Value>, refSize: nat, items: seq<Value>)
    requires |items| < TWO31
    requires EncodeArray(table, refSize, items).Ok?
    requires At(buf, offset, EncodeArray(table, refSize, items).value)
    ensures var start := RefsStart(T_ARRAY, |items|, offset);
            && ParseObjectAt(buf, offset) == Ok(Shell(true, |items|, start))
            && EncodeNums(Refs(table, items), refSize).Ok?
            && At(buf, start, EncodeNums(Refs(table, items), refSize).value)
  {
    hide HeaderAt, Header, At, EncodeNums, Refs;
    LengthHeader(buf, offset, T_ARRAY, |items|, EncodeNums(Refs(table, items), refSize).value);
  }

  lemma ReadDict(buf: Bytes, offset: nat, table: seq<Value>, refSize: nat, es: seq<Entry>)
    requires |es| < TWO31
    requires EncodeDict(table, refSize, es).Ok?
    requires At(buf, offset, EncodeDict(table, refSize, es).value)
    ensures var start := RefsStart(T_DICT, |es|, offset);
            var keys := EncodeNums(Refs(table, EntryKeys(es)), refSize);
            var values := EncodeNums(Refs(table, EntryValues(es)), refSize);
            && ParseObjectAt(buf, offset) == Ok(Shell(false, |es|, start))
            && keys.Ok? && At(buf, start, keys.value)
            && values.Ok? && At(buf, start + |es| * refSize, values.value)
  {
    hide HeaderAt, Header, At, EncodeNums, Refs, EntryKeys, EntryValues;
    var header := Header(T_DICT, |es|).value;
    var keys := EncodeNums(Refs(table, EntryKeys(es)), refSize).value;
    var values := EncodeNums(Refs(table, EntryValues(es)), refSize).value;
    assert header + keys + values == header + (keys + values);
    LengthHeader(buf, offset, T_DICT, |es|, keys + values);
    AtSplit(buf, offset + |header|, keys, values);
  }

  /** Reference `j` of an encoded reference list. */
  lemma ReadRefAt(buf: Bytes, t: TrailerInfo, start: nat, ns: seq<nat>, j: nat)
    requires EncodeNums(ns, t.refSize).Ok? && j < |ns| && t.refSize > 0 && ns[j] < TWO31
    requires At(buf, start, EncodeNums(ns, t.refSize).value)
    ensures ReadObjectRef(buf, t, start, j) == Ok(ns[j])
  {
    hide EncodeNums, At;
    EncodeNumsAt(ns, t.refSize, j);
    ReadPart(buf, start, EncodeNums(ns, t.refSize).value, j * t.refSize, ns[j], t.refSize);
  }

  lemma ReadPart(buf: Bytes, start: nat, d: Bytes, p: nat, n: nat, w: nat)
    requires At(buf, start, d) && p + w <= |d| && d[p..p + w] == BE(n, w)
    requires n < Pow256(w) && n < TWO31 && w > 0
    ensures ReadInt(buf, start + p, w) == Ok(n)
  {
    AtSub(buf, start, d, p, p + w);
    ReadIntAt(buf, start + p, n, w);
  }
}
