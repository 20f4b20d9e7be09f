/** The binary plist file format in its own bytes, and that the creator writes it. */
module BinaryPlistFile {
  import opened Bytes
  import opened Wrappers
  import opened PlistGraph
  import opened BinaryPlistFormat
  import opened BinaryPlistCreator
  import opened BinaryPlistLayout
  import T = BinaryPlistTheorems
  import O = ByteOrder

  // ----- one object -----

  /** The marker byte of a sized object, and the size behind it when it is 15 or more. */
  function Marker(base: nat, size: nat): seq<int> {
    if size < 15 then [base + size]
    else if size < 0x100 then [base + 15, 0x10, size]
    else if size < 0x1_0000 then [base + 15, 0x11, size / 0x100, size % 0x100]
    else [base + 15, 0x12, size / 0x100_0000, size / 0x1_0000 % 0x100, size / 0x100 % 0x100, size % 0x100]
  }

  /** Two's complement, most significant byte first. */
  predicate IsInteger(d: Bytes, n: int) {
    d != [] && FromBE(d) == (if n < 0 then n + Pow256(|d|) else n)
  }

  predicate NumberBytes(d: Bytes, n: int) {
    || (0 <= n <= 255 && d == [0x10, n])
    || (-128 <= n < 0 && d == [0x10, n + 256])
    || (-32768 <= n <= 32767 && !(-128 <= n <= 255) && |d| == 3 && d[0] == 0x11 && IsInteger(d[1..], n))
    || (!(-32768 <= n <= 32767) && -2147483648 <= n <= 2147483647 && |d| == 5 && d[0] == 0x12 && IsInteger(d[1..], n))
    || (!(-2147483648 <= n <= 2147483647) && |d| == 9 && d[0] == 0x13 && IsInteger(d[1..], n))
  }

  /** References of `w` bytes each: big-endian positions of the values in the table. */
  predicate PointTo(d: Bytes, w: nat, table: seq<Value>, vs: seq<Value>) {
    |d| == |vs| * w
    && forall j :: 0 <= j < |vs| ==>
         0 <= j * w <= j * w + w <= |d| && FromBE(d[j * w..j * w + w]) < |table|
         && table[FromBE(d[j * w..j * w + w])] == vs[j]
  }

  /** A sized object: marker, size, and the bytes `body`. */
  predicate Sized(d: Bytes, base: nat, size: nat, body: Bytes) {
    d == Marker(base, size) + body
  }

  predicate UnitsBE(d: Bytes, s: Text) {
    |d| == 2 * |s| && forall i :: 0 <= i < |s| ==> s[i] == 0x100 * d[2 * i] as int + d[2 * i + 1] as int
  }

  /** The bytes `d` are the value `v` in a file with that table and references of `w` bytes. */
  ghost predicate Represents(h: Heap, table: seq<Value>, w: nat, d: Bytes, v: Value)
    requires InHeap(h, v)
  {
    match v
    case Null => d == [0x00]
    case Bool(b) => d == [if b then 0x09 else 0x08]
    case Num(n) => NumberBytes(d, n)
    case Big(n) => |d| == 9 && d[0] == 0x13 && IsInteger(d[1..], n)
    case Real(bits) => d == [0x23] + bits
    case Str(s) =>
      if forall i :: 0 <= i < |s| ==> s[i] < 128 then
        exists body: Bytes :: Sized(d, 0x50, |s|, body) && |body| == |s| && forall i :: 0 <= i < |s| ==> body[i] == s[i]
      else exists body: Bytes :: Sized(d, 0x60, |s|, body) && UnitsBE(body, s)
    case Obj(id) =>
      match h[id]
      case Arr(items) => exists body: Bytes :: Sized(d, 0xa0, |items|, body) && PointTo(body, w, table, items)
      case Dict(es) =>
        exists keys: Bytes, values: Bytes ::
          && Sized(d, 0xd0, |es|, keys + values)
          && PointTo(keys, w, table, seq(|es|, i requires 0 <= i < |es| => Str(es[i].key)))
          && PointTo(values, w, table, seq(|es|, i requires 0 <= i < |es| => es[i].value))
      case Data(bytes) => Sized(d, 0x40, |bytes|, bytes)
      case Uid(n) =>
        || (0 <= n <= 255 && d == [0x80, n])
        || (255 < n <= 65535 && d == [0x81, n / 0x100, n % 0x100])
        || (65535 < n && |d| == 5 && d[0] == 0x82 && FromBE(d[1..]) == n)
  }

  lemma WrittenSize(base: Byte, size: nat)
    requires base <= 0xf0 && Header(base, size).Ok?
    ensures Header(base, size).value == Marker(base, size)
  {
    hide FromBE;
    if 0x100 <= size < 0x1_0000 {
      TwoWritten(size);
    } else if size >= 0x1_0000 {
      FourWritten(size);
    }
  }

  lemma TwoWritten(n: nat)
    requires n < 0x1_0000
    ensures BE(n, 2) == [n / 0x100, n % 0x100]
  {
    Pow256Values();
    BERoundTrip(n, 2);
    O.TwoBytes(BE(n, 2));
  }

  lemma FourWritten(n: nat)
    requires n < TWO32
    ensures BE(n, 4) == [n / 0x100_0000, n / 0x1_0000 % 0x100, n / 0x100 % 0x100, n % 0x100]
  {
    hide BE, FromBE;
    Pow256Values();
    BERoundTrip(n, 4);
    var s := BE(n, 4);
    O.FourBytes(s);
    var a: int, b: int, c: int, e: int := s[0], s[1], s[2], s[3];
    FourDigits(n, a, b, c, e);
  }

  lemma FourDigits(n: int, a: int, b: int, c: int, e: int)
    requires n == 0x100_0000 * a + 0x1_0000 * b + 0x100 * c + e
    requires 0 <= a < 256 && 0 <= b < 256 && 0 <= c < 256 && 0 <= e < 256
    ensures n / 0x100_0000 == a && n / 0x1_0000 % 0x100 == b && n / 0x100 % 0x100 == c && n % 0x100 == e
  {
    ModUnique(n, 0x100_0000, a, 0x1_0000 * b + 0x100 * c + e);
    ModUnique(n, 0x1_0000, 0x100 * a + b, 0x100 * c + e);
    ModUnique(n, 0x100, 0x1_0000 * a + 0x100 * b + c, e);
  }

  /** A signed number in `w` bytes. */
  lemma SignedWritten(n: int, w: nat)
    requires w > 0 && -Pow256(w) <= 2 * n < Pow256(w)
    ensures IsInteger(BE(Unsigned(n, w), w), n)
  {
    hide BE, FromBE, Pow256;
    var p := Pow256(w);
    if n < 0 {
      ShiftMod(n, p);
      SmallMod(n + p, p);
    } else {
      SmallMod(n, p);
    }
    BERoundTrip(Unsigned(n, w), w);
  }

  lemma SmallWritten(n: int)
    requires -128 <= n < 0
    ensures BE(Unsigned(n, 1), 1) == [n + 256]
  {
    hide FromBE, BE;
    Pow256Values();
    SignedWritten(n, 1);
    O.OneByte(BE(Unsigned(n, 1), 1));
  }

  lemma NumberWritten(n: int)
    requires EncodeNumber(n).Ok?
    ensures NumberBytes(EncodeNumber(n).value, n)
  {
    hide BE, FromBE, Pow256, Unsigned, IsInteger;
    Pow256Values();
    var d := EncodeNumber(n).value;
    if -128 <= n < 0 {
      SmallWritten(n);
    } else if !(0 <= n <= 255) {
      var w := if -32768 <= n <= 32767 then 2 else if -TWO31 <= n < TWO31 then 4 else 8;
      SignedWritten(n, w);
      assert d[1..] == BE(Unsigned(n, w), w);
    }
  }

  lemma BigWritten(n: int)
    requires EncodeInt64(n).Ok?
    ensures var d := EncodeInt64(n).value; |d| == 9 && d[0] == 0x13 && IsInteger(d[1..], n)
  {
    hide BE, FromBE, Pow256, Unsigned, IsInteger;
    Pow256Values();
    SignedWritten(n, 8);
    assert EncodeInt64(n).value[1..] == BE(Unsigned(n, 8), 8);
  }

  lemma UidWritten(n: int)
    requires EncodeUid(n).Ok?
    ensures var d := EncodeUid(n).value;
            || (0 <= n <= 255 && d == [0x80, n])
            || (255 < n <= 65535 && d == [0x81, n / 0x100, n % 0x100])
            || (65535 < n && |d| == 5 && d[0] == 0x82 && FromBE(d[1..]) == n)
  {
    hide BE, FromBE, Pow256;
    Pow256Values();
    if n <= 255 {
      BERoundTrip(n, 1);
      O.OneByte(BE(n, 1));
    } else if n <= 65535 {
      TwoWritten(n);
    } else {
      BERoundTrip(n, 4);
      assert EncodeUid(n).value[1..] == BE(n, 4);
    }
  }

  lemma StringWritten(s: Text)
    requires EncodeString(s).Ok?
    ensures var d := EncodeString(s).value;
            if forall i :: 0 <= i < |s| ==> s[i] < 128 then
              exists body: Bytes ::
                Sized(d, 0x50, |s|, body) && |body| == |s| && forall i :: 0 <= i < |s| ==> body[i] == s[i]
            else exists body: Bytes :: Sized(d, 0x60, |s|, body) && UnitsBE(body, s)
  {
    hide BE, Header, Marker;
    if IsAscii(s) {
      WrittenSize(T_ASCII, |s|);
      assert Sized(EncodeString(s).value, 0x50, |s|, AsciiBytes(s));
    } else {
      WrittenSize(T_UNICODE, |s|);
      UnitsWritten(s);
      assert Sized(EncodeString(s).value, 0x60, |s|, Utf16BE(s));
    }
  }

  lemma {:induction false} UnitsWritten(s: Text)
    ensures UnitsBE(Utf16BE(s), s)
  {
    hide BE;
    if s != [] {
      var n := |s| - 1;
      UnitsWritten(s[..n]);
      TwoWritten(s[n]);
      var d := Utf16BE(s);
      assert d[2 * n] == s[n] / 0x100 && d[2 * n + 1] == s[n] % 0x100;
      forall i | 0 <= i < n
        ensures s[i] == 0x100 * d[2 * i] as int + d[2 * i + 1] as int
      {
        assert s[..n][i] == s[i] && d[2 * i] == Utf16BE(s[..n])[2 * i];
      }
    }
  }

  lemma RefsWritten(table: seq<Value>, w: nat, vs: seq<Value>)
    requires EncodeNums(Refs(table, vs), w).Ok? && forall v :: v in vs ==> v in table
    ensures PointTo(EncodeNums(Refs(table, vs), w).value, w, table, vs)
  {
    hide EncodeNums, BE, FromBE, IndexOf, Pow256;
    var d := EncodeNums(Refs(table, vs), w).value;
    forall j | 0 <= j < |vs|
      ensures 0 <= j * w <= j * w + w <= |d| && FromBE(d[j * w..j * w + w]) < |table|
      ensures table[FromBE(d[j * w..j * w + w])] == vs[j]
    {
      assert vs[j] in vs;
      EncodeNumsAt(Refs(table, vs), w, j);
      BERoundTrip(Refs(table, vs)[j], w);
    }
  }

  lemma ArrayWritten(table: seq<Value>, w: nat, items: seq<Value>)
    requires EncodeArray(table, w, items).Ok? && forall v :: v in items ==> v in table
    ensures exists body: Bytes ::
              Sized(EncodeArray(table, w, items).value, 0xa0, |items|, body) && PointTo(body, w, table, items)
  {
    hide EncodeNums, PointTo, Marker, Header;
    WrittenSize(T_ARRAY, |items|);
    RefsWritten(table, w, items);
    assert Sized(EncodeArray(table, w, items).value, 0xa0, |items|, EncodeNums(Refs(table, items), w).value);
  }

  lemma DictWritten(table: seq<Value>, w: nat, es: seq<Entry>)
    requires EncodeDict(table, w, es).Ok? && forall v :: v in DictKids(es) ==> v in table
    ensures exists keys: Bytes, values: Bytes ::
              && Sized(EncodeDict(table, w, es).value, 0xd0, |es|, keys + values)
              && PointTo(keys, w, table, seq(|es|, i requires 0 <= i < |es| => Str(es[i].key)))
              && PointTo(values, w, table, seq(|es|, i requires 0 <= i < |es| => es[i].value))
  {
    hide EncodeNums, PointTo, Marker, Header, DictKids;
    forall i | 0 <= i < |es|
      ensures Str(es[i].key) in table && es[i].value in table
    {
      DictKidsMembers(es, i);
    }
    WrittenSize(T_DICT, |es|);
    RefsWritten(table, w, EntryKeys(es));
    RefsWritten(table, w, EntryValues(es));
    var keys, values := EncodeNums(Refs(table, EntryKeys(es)), w).value,
        EncodeNums(Refs(table, EntryValues(es)), w).value;
    var head := Header(T_DICT, |es|).value;
    assert head + keys + values == head + (keys + values);
    assert EntryKeys(es) == seq(|es|, i requires 0 <= i < |es| => Str(es[i].key));
    assert EntryValues(es) == seq(|es|, i requires 0 <= i < |es| => es[i].value);
    assert Sized(EncodeDict(table, w, es).value, 0xd0, |es|, keys + values);
  }

  /** Every value is written in the bytes the format gives it. */
  lemma ObjectWritten(h: Heap, table: seq<Value>, w: nat, v: Value)
    requires InHeap(h, v) && EncodeObject(h, table, w, v).Ok? && forall x :: x in Children(h, v) ==> x in table
    ensures Represents(h, table, w, EncodeObject(h, table, w, v).value, v)
  {
    hide EncodeNumber, EncodeInt64, EncodeUid, EncodeString, EncodeArray, EncodeDict, NumberBytes, IsInteger;
    hide PointTo, UnitsBE, Header, Marker;
    match v
    case Num(n) => NumberWritten(n);
    case Big(n) => BigWritten(n);
    case Str(s) => StringWritten(s);
    case Obj(id) => ContainerWritten(h, table, w, id);
    case _ =>
  }

  lemma ContainerWritten(h: Heap, table: seq<Value>, w: nat, id: nat)
    requires id in h && EncodeObject(h, table, w, Obj(id)).Ok? && forall x :: x in Kids(h[id]) ==> x in table
    ensures Represents(h, table, w, EncodeObject(h, table, w, Obj(id)).value, Obj(id))
  {
    hide EncodeUid, EncodeArray, EncodeDict, PointTo, Header, Marker, FromBE;
    match h[id]
    case Arr(items) => ArrayWritten(table, w, items);
    case Dict(es) => DictWritten(table, w, es);
    case Data(bytes) => WrittenSize(T_DATA, |bytes|);
    case Uid(n) => UidWritten(n);
  }

  // ----- the file -----

  /** Where entry `i` of the offset table says its object is. */
  function OffsetOf(buf: Bytes, tableAt: nat, width: nat, i: nat): nat
    requires tableAt + i * width + width <= |buf|
  {
    FromBE(buf[tableAt + i * width..tableAt + i * width + width])
  }

  /** The 32 bytes of the trailer: the two widths, the number of objects, the top object, the offset table. */
  predicate HasTrailer(buf: Bytes, width: nat, w: nat, n: nat, tableAt: nat) {
    && |buf| >= 40
    && var t := |buf| - 32;
       && (forall i :: t <= i < t + 6 ==> buf[i] == 0) && buf[t + 6] == width && buf[t + 7] == w
       && FromBE(buf[t + 8..t + 16]) == n && FromBE(buf[t + 16..t + 24]) == 0 && FromBE(buf[t + 24..]) == tableAt
  }

  /** Entry `i` of the offset table leads to the bytes of table entry `i`. */
  ghost predicate HasEntry(h: Heap, table: seq<Value>, w: nat, buf: Bytes, tableAt: nat, width: nat, i: nat)
    requires i < |table| && InHeap(h, table[i]) && tableAt + |table| * width <= |buf|
  {
    && 0 <= i * width <= i * width + width <= |table| * width
    && exists d: Bytes ::
         StandsAt(buf, OffsetOf(buf, tableAt, width, i), tableAt, d) && Represents(h, table, w, d, table[i])
  }

  /** The bytes `d` stand at that position, before `limit`. */
  predicate StandsAt(buf: Bytes, at: nat, limit: nat, d: Bytes) {
    at + |d| <= limit && at + |d| <= |buf| && buf[at..at + |d|] == d
  }

  /** A whole file: "bplist00", the objects, the offset table, the trailer; the top object is entry 0. */
  ghost predicate IsFile(h: Heap, table: seq<Value>, buf: Bytes)
    requires forall v :: v in table ==> InHeap(h, v)
  {
    && |buf| >= 40 && buf[..8] == [0x62, 0x70, 0x6c, 0x69, 0x73, 0x74, 0x30, 0x30]
    && exists width: nat, w: nat, tableAt: nat ::
         && width > 0 && w > 0 && HasTrailer(buf, width, w, |table|, tableAt) && tableAt + |table| * width == |buf| - 32
         && forall i :: 0 <= i < |table| ==> HasEntry(h, table, w, buf, tableAt, width, i)
  }

  lemma TrailerBytes(offsetSize: Byte, refSize: Byte, n: nat, tableAt: nat)
    requires n < TWO64 && tableAt < TWO64
    ensures var t := Trailer(offsetSize, refSize, n, tableAt);
            && (forall i :: 0 <= i < 6 ==> t[i] == 0) && t[6] == offsetSize && t[7] == refSize
            && FromBE(t[8..16]) == n && FromBE(t[16..24]) == 0 && FromBE(t[24..32]) == tableAt
  {
    hide BE, FromBE;
    Pow256Values();
    BERoundTrip(n, 8);
    BERoundTrip(0, 8);
    BERoundTrip(tableAt, 8);
    var t := Trailer(offsetSize, refSize, n, tableAt);
    assert t[8..16] == BE(n, 8) && t[16..24] == BE(0, 8) && t[24..32] == BE(tableAt, 8);
  }

  /** The sections of a file, by position. */
  lemma Sections(table: seq<Value>, parts: seq<Bytes>, buf: Bytes)
    requires Assemble(table, RefSize(table), parts) == Ok(buf) && |buf| < TWO31 && |table| == |parts| && table != []
    ensures |table| < TWO31 && |buf| >= 40 && buf[..8] == [0x62, 0x70, 0x6c, 0x69, 0x73, 0x74, 0x30, 0x30]
    ensures var t, body := |buf| - 32, Flatten(parts);
            var width := MinByteSize(|body|);
            && buf[t..] == Trailer(width, RefSize(table), |table|, 8 + |body|)
            && 8 + |body| + |table| * width == t && buf[8..8 + |body|] == body && 8 + |body| < TWO31
            && EncodeNums(Offsets(parts), width).Ok?
            && buf[8 + |body|..t] == EncodeNums(Offsets(parts), width).value
  {
    hide EncodeNums, Flatten, Offsets, Trailer;
    var body := Flatten(parts);
    var width := MinByteSize(|body|);
    var offsets := EncodeNums(Offsets(parts), width).value;
    var trailer := Trailer(width, RefSize(table), |table|, 8 + |body|);
    MulMono(1, width, |parts|);
    assert buf == MAGIC + body + offsets + trailer;
  }

  lemma SliceOfSlice(buf: Bytes, lo: nat, hi: nat, a: nat, b: nat)
    requires lo + b <= hi <= |buf| && a <= b
    ensures buf[lo..hi][a..b] == buf[lo + a..lo + b]
  {
    var x, y := buf[lo..hi][a..b], buf[lo + a..lo + b];
    assert |x| == |y| && forall k :: 0 <= k < |x| ==> x[k] == y[k];
  }

  lemma OffsetEntry(buf: Bytes, tableAt: nat, width: nat, ns: seq<nat>, i: nat)
    requires EncodeNums(ns, width).Ok? && tableAt + |ns| * width <= |buf| && i < |ns|
    requires buf[tableAt..tableAt + |ns| * width] == EncodeNums(ns, width).value
    ensures 0 <= i * width <= i * width + width <= |ns| * width && OffsetOf(buf, tableAt, width, i) == ns[i]
  {
    hide EncodeNums, BE, FromBE;
    EncodeNumsAt(ns, width, i);
    BERoundTrip(ns[i], width);
    SliceOfSlice(buf, tableAt, tableAt + |ns| * width, i * width, i * width + width);
  }

  lemma PartInFile(buf: Bytes, parts: seq<Bytes>, i: nat)
    requires 8 + |Flatten(parts)| <= |buf| && buf[8..8 + |Flatten(parts)|] == Flatten(parts) && i < |parts|
    ensures var at, d := Offsets(parts)[i], parts[i];
            8 <= at && at + |d| <= 8 + |Flatten(parts)| && buf[at..at + |d|] == d
  {
    hide Flatten, Offsets;
    FlattenAt(parts, i);
    var start := Offsets(parts)[i] - 8;
    SliceOfSlice(buf, 8, 8 + |Flatten(parts)|, start, start + |parts[i]|);
  }

  /** Whatever `create` returns is a file of the format, for the table of reachable values. */
  lemma FileWritten(h: Heap, root: Value, buf: Bytes)
    requires ClosedHeap(h) && InHeap(h, root) && CreateBytes(h, root) == Ok(buf) && |buf| < TWO31
    ensures forall v :: v in Collect(h, [], root) ==> InHeap(h, v)
    ensures IsFile(h, Collect(h, [], root), buf) && Collect(h, [], root)[0] == root
  {
    hide Collect, EncodeObject, Assemble, EncodeAll, Reachable, Distinct, IsFile, CreateBytes;
    var table := Collect(h, [], root);
    CollectInHeap(h, [], root);
    RootFirst(h, root);
    CollectIsReachability(h, root);
    CreatedParts(h, root, buf);
    PartsWritten(h, table, EncodeAll(h, table, RefSize(table), table).value, buf);
  }

  lemma PartsWritten(h: Heap, table: seq<Value>, parts: seq<Bytes>, buf: Bytes)
    requires (forall v :: v in table ==> InHeap(h, v)) && ClosedFrom(h, table, 0) && table != []
    requires EncodeAll(h, table, RefSize(table), table) == Ok(parts)
    requires Assemble(table, RefSize(table), parts) == Ok(buf) && |buf| < TWO31
    ensures IsFile(h, table, buf)
  {
    hide EncodeObject, EncodeNums, Flatten, Offsets, Trailer, MinByteSize, EncodeAll, Assemble, HasEntry, HasTrailer;
    var w, width, tableAt := RefSize(table), MinByteSize(|Flatten(parts)|), 8 + |Flatten(parts)|;
    Sections(table, parts, buf);
    WidthIsPositive(|Flatten(parts)|);
    WidthIsPositive(|table| - 1);
    TrailerInFile(buf, width, w, |table|, tableAt);
    forall i | 0 <= i < |table|
      ensures HasEntry(h, table, w, buf, tableAt, width, i)
    {
      EntryWritten(h, table, w, parts, Flatten(parts), width, buf, i);
    }
  }

  lemma CreatedParts(h: Heap, root: Value, buf: Bytes)
    requires ClosedHeap(h) && InHeap(h, root) && CreateBytes(h, root) == Ok(buf)
    ensures var table := Collect(h, [], root);
            && (forall v :: v in table ==> InHeap(h, v))
            && var parts := EncodeAll(h, table, RefSize(table), table);
               parts.Ok? && Assemble(table, RefSize(table), parts.value) == Ok(buf)
  {
    hide Collect, EncodeAll, Assemble;
    CollectInHeap(h, [], root);
  }

  /** The offset of entry `i` leads to the bytes of its value. */
  lemma EntryWritten(h: Heap, table: seq<Value>, w: nat, parts: seq<Bytes>, body: Bytes, width: nat, buf: Bytes, i: nat)
    requires (forall v :: v in table ==> InHeap(h, v)) && ClosedFrom(h, table, 0) && i < |table|
    requires EncodeAll(h, table, w, table) == Ok(parts)
    requires body == Flatten(parts) && width == MinByteSize(|body|)
    requires 8 + |body| + |table| * width <= |buf| && buf[8..8 + |body|] == body
    requires EncodeNums(Offsets(parts), width) == Ok(buf[8 + |body|..8 + |body| + |table| * width])
    ensures HasEntry(h, table, w, buf, 8 + |body|, width, i)
  {
    hide EncodeObject, EncodeNums, Flatten, Offsets, Represents, FromBE, OffsetOf, MinByteSize, EncodeAll;
    OffsetEntry(buf, 8 + |body|, width, Offsets(parts), i);
    PartInFile(buf, parts, i);
    EncodeAllAt(h, table, w, table, i);
    T.ChildrenInTable(h, table, i);
    ObjectWritten(h, table, w, table[i]);
    assert StandsAt(buf, Offsets(parts)[i], 8 + |body|, parts[i]) && Represents(h, table, w, parts[i], table[i]);
  }

  lemma WidthIsPositive(n: int)
    ensures MinByteSize(n) > 0
  {
  }

  lemma TrailerInFile(buf: Bytes, width: Byte, w: Byte, n: nat, tableAt: nat)
    requires |buf| >= 40 && n < TWO64 && tableAt < TWO64 && buf[|buf| - 32..] == Trailer(width, w, n, tableAt)
    ensures HasTrailer(buf, width, w, n, tableAt)
  {
    hide Trailer, FromBE;
    TrailerBytes(width, w, n, tableAt);
    var t := |buf| - 32;
    var tr := buf[t..];
    assert forall i :: t <= i < t + 8 ==> buf[i] == tr[i - t];
    assert buf[t + 8..t + 16] == tr[8..16] && buf[t + 16..t + 24] == tr[16..24] && buf[t + 24..] == tr[24..32];
  }
}
