/** The OPACK2 format in its own bytes, and that the encoder writes it and the decoder reads it. */
module Opack2Wire {
  import opened Bytes
  import opened Wrappers
  import opened OpackFormat
  import O = ByteOrder
  import Utf8

  // ----- what is written -----

  predicate IsInteger(d: Bytes, n: nat) {
    if n < 0x28 then d == [8 + n]
    else if n < 0x100 then d == [0x30, n]
    else if n < 0x1_0000_0000 then |d| == 5 && d[0] == 0x32 && FromLE(d[1..]) == n
    else |d| == 9 && d[0] == 0x33 && FromLE(d[1..]) == n
  }

  /** A string (base 0x40) or bytes (base 0x70): the length in the marker, or in 1, 2 or 4 bytes, high byte first. */
  predicate IsRun(d: Bytes, base: Byte, b: Bytes) {
    var n := |b|;
    if n <= 0x20 then |d| == 1 + n && d[0] as int == base as int + n && d[1..] == b
    else if n < 0x100 then |d| == 2 + n && d[0] as int == base as int + 0x21 && d[1] == n && d[2..] == b
    else if n < 0x1_0000 then
      |d| == 3 + n && d[0] as int == base as int + 0x22 && n == 0x100 * d[1] as int + d[2] as int && d[3..] == b
    else
      |d| == 5 + n && d[0] as int == base as int + 0x23 && FromBE(d[1..5]) == n && d[5..] == b
  }

  ghost predicate Wire(d: Bytes, v: Value)
    decreases v, 0
  {
    match v
    case ONull => d == [3]
    case OBool(b) => d == [if b then 1 else 2]
    case OInt(n) => IsInteger(d, n)
    case OFloat(bits) => d == [0x35] + bits
    case OStr(s) => IsRun(d, 0x40, Utf8.Encode(s))
    case OBytes(b) => IsRun(d, 0x70, b)
    case OArr(items) =>
      if |items| <= 15 then |d| > 0 && d[0] == 0xd0 + |items| && WireItems(d[1..], items)
      else |d| > 1 && d[0] == 0xdf && d[|d| - 1] == 3 && WireItems(d[1..|d| - 1], items)
    case ODict(es) =>
      if |es| < 15 then |d| > 0 && d[0] == 0xe0 + |es| && WireEntries(d[1..], es)
      else |d| > 2 && d[0] == 0xef && d[|d| - 2..] == [3, 3] && WireEntries(d[1..|d| - 2], es)
  }

  ghost predicate WireItems(d: Bytes, items: seq<Value>)
    decreases items, 0
  {
    if items == [] then d == []
    else exists k: nat :: k <= |d| && WireItems(d[..k], items[..|items| - 1]) && Wire(d[k..], items[|items| - 1])
  }

  ghost predicate WireEntries(d: Bytes, es: seq<Entry>)
    decreases es, 0
  {
    if es == [] then d == []
    else
      var last := es[|es| - 1];
      exists j: nat, k: nat :: Cuts(d, j, k) && WireEntries(d[..j], es[..|es| - 1])
                               && IsRun(d[j..k], 0x40, Utf8.Encode(last.key)) && Wire(d[k..], last.value)
  }

  predicate Cuts(d: Bytes, j: nat, k: nat) {
    j <= k <= |d|
  }

  lemma IntegerWritten(n: nat)
    requires EncodeNumber(n).Ok?
    ensures IsInteger(EncodeNumber(n).value, n)
  {
    hide LE, FromLE;
    Pow256Values();
    if n >= 0x100 {
      var w := if n <= 0xffff_ffff then 4 else 8;
      LERoundTrip(n, w);
      assert EncodeNumber(n).value[1..] == LE(n, w);
    }
  }

  lemma RunWritten(base: Byte, b: Bytes)
    requires (base == 0x40 || base == 0x70) && EncodeRun(base, b).Ok?
    ensures IsRun(EncodeRun(base, b).value, base, b)
  {
    hide BE, FromBE;
    Pow256Values();
    var n, d := |b|, EncodeRun(base, b).value;
    if 0xff < n <= 0xffff {
      BERoundTrip(n, 2);
      O.TwoBytes(BE(n, 2));
      assert d == [base + 0x22] + (BE(n, 2) + b);
    } else if 0xffff < n {
      BERoundTrip(n, 4);
      assert d == [base + 0x23] + (BE(n, 4) + b);
      assert d[1..5] == BE(n, 4) && d[5..] == b;
    }
  }

  /** Every value is written in the format. */
  lemma {:induction false} ValueWritten(v: Value)
    requires Encode(v).Ok?
    ensures Wire(Encode(v).value, v)
    decreases v, 1
  {
    hide IsInteger, IsRun, EncodeNumber, EncodeRun, EncodeItems, EncodeEntries, WireItems, WireEntries, Utf8.Encode;
    match v
    case OInt(n) => IntegerWritten(n);
    case OStr(s) => RunWritten(0x40, Utf8.Encode(s));
    case OBytes(b) => RunWritten(0x70, b);
    case OArr(items) => ItemsWritten(items); ArrayEnds(items);
    case ODict(es) => EntriesWritten(es); DictEnds(es);
    case _ =>
  }

  lemma ArrayEnds(items: seq<Value>)
    requires Encode(OArr(items)).Ok?
    ensures var d, p := Encode(OArr(items)).value, EncodeItems(items);
            && p.Ok? && |d| > 0
            && (|items| <= 15 ==> d[0] == 0xd0 + |items| && d[1..] == p.value)
            && (|items| > 15 ==> |d| > 1 && d[0] == 0xdf && d[|d| - 1] == 3 && d[1..|d| - 1] == p.value)
  {
    hide EncodeItems;
    var d, p := Encode(OArr(items)).value, EncodeItems(items).value;
    if |items| <= 15 {
      assert d == [ArrayMarker(|items|)] + p;
    } else {
      assert d == [ArrayMarker(|items|)] + p + [3];
    }
  }

  lemma DictEnds(es: seq<Entry>)
    requires Encode(ODict(es)).Ok?
    ensures var d, p := Encode(ODict(es)).value, EncodeEntries(es);
            && p.Ok? && |d| > 0
            && (|es| < 15 ==> d[0] == 0xe0 + |es| && d[1..] == p.value)
            && (|es| >= 15 ==> |d| > 2 && d[0] == 0xef && d[|d| - 2..] == [3, 3] && d[1..|d| - 2] == p.value)
  {
    hide EncodeEntries;
    var d, p := Encode(ODict(es)).value, EncodeEntries(es).value;
    if |es| < 15 {
      assert d == [DictMarker(|es|)] + p;
    } else {
      assert d == [DictMarker(|es|)] + p + [3, 3];
    }
  }

  lemma {:induction false} ItemsWritten(items: seq<Value>)
    requires EncodeItems(items).Ok?
    ensures WireItems(EncodeItems(items).value, items)
    decreases items, 0
  {
    hide Encode, Wire;
    if items != [] {
      var init, last := items[..|items| - 1], items[|items| - 1];
      ItemsWritten(init);
      ValueWritten(last);
      var d, k := EncodeItems(items).value, |EncodeItems(init).value|;
      assert d[..k] == EncodeItems(init).value && d[k..] == Encode(last).value;
    }
  }

  lemma {:induction false} EntriesWritten(es: seq<Entry>)
    requires EncodeEntries(es).Ok?
    ensures WireEntries(EncodeEntries(es).value, es)
    decreases es, 0
  {
    hide Encode, EncodeRun, Wire, IsRun, Utf8.Encode;
    if es != [] {
      var init, last := es[..|es| - 1], es[|es| - 1];
      var key := EncodeRun(0x40, Utf8.Encode(last.key)).value;
      EntriesWritten(init);
      ValueWritten(last.value);
      RunWritten(0x40, Utf8.Encode(last.key));
      var d, j := EncodeEntries(es).value, |EncodeEntries(init).value|;
      var k := j + |key|;
      assert d[..j] == EncodeEntries(init).value && d[j..k] == key && d[k..] == Encode(last.value).value;
      assert Cuts(d, j, k);
    }
  }

  // ----- what is read -----

  /** Single bytes: null, true, false, small integers, and the markers of containers. */
  lemma MarkersRead(data: Bytes, at: nat)
    requires at < |data|
    ensures data[at] == 3 ==> ReadHead(data, at) == Ok(Read(Scalar(ONull), at + 1))
    ensures data[at] == 1 ==> ReadHead(data, at) == Ok(Read(Scalar(OBool(true)), at + 1))
    ensures data[at] == 2 ==> ReadHead(data, at) == Ok(Read(Scalar(OBool(false)), at + 1))
    ensures 8 <= data[at] <= 0x2f ==> ReadHead(data, at) == Ok(Read(Scalar(OInt(data[at] - 8)), at + 1))
    ensures 0xd0 <= data[at] <= 0xde ==> ReadHead(data, at) == Ok(Read(FixedArray(data[at] - 0xd0), at + 1))
    ensures data[at] == 0xdf ==> ReadHead(data, at) == Ok(Read(VariableArray, at + 1))
    ensures 0xe0 <= data[at] <= 0xee ==> ReadHead(data, at) == Ok(Read(FixedDict(data[at] - 0xe0), at + 1))
    ensures data[at] == 0xef ==> ReadHead(data, at) == Ok(Read(VariableDict, at + 1))
    ensures (data[at] in {0, 4, 5, 6, 7, 0x31, 0x34} || 0x36 <= data[at] <= 0x3f || 0x64 <= data[at] <= 0x6f
             || 0x94 <= data[at] <= 0xcf || 0xf0 <= data[at]) ==> ReadHead(data, at) == Err(BadMarker)
  {
    hide TakeRun, FromLE, FromBE, Utf8.Decode;
  }

  lemma NumbersRead(data: Bytes, at: nat)
    requires at < |data|
    ensures data[at] == 0x30 && at + 2 <= |data| ==>
              ReadHead(data, at) == Ok(Read(Scalar(OInt(data[at + 1])), at + 2))
    ensures data[at] == 0x32 && at + 5 <= |data| ==>
              ReadHead(data, at) == Ok(Read(Scalar(OInt(FromLE(data[at + 1..at + 5]))), at + 5))
    ensures data[at] == 0x33 && at + 9 <= |data| ==>
              var n := FromLE(data[at + 1..at + 9]);
              ReadHead(data, at) ==
              if n <= 9007199254740991 then Ok(Read(Scalar(OInt(n)), at + 9)) else Err(UnsafeInteger)
    ensures data[at] == 0x35 && at + 5 <= |data| ==>
              ReadHead(data, at) == Ok(Read(Scalar(OFloat(data[at + 1..at + 5])), at + 5))
  {
    hide TakeRun, FromLE, FromBE, Utf8.Decode;
  }

  /** The bytes `b` behind a marker of a run with that base. */
  predicate RunAt(data: Bytes, at: nat, base: Byte, b: Bytes, next: nat) {
    at <= next <= |data| && |b| < 0x1_0000_0000 && IsRun(data[at..next], base, b)
  }

  lemma SliceOfSlice(data: Bytes, at: nat, next: nat, a: nat, b: nat)
    requires at <= next <= |data| && a <= b <= next - at
    ensures data[at..next][a..b] == data[at + a..at + b]
  {
    var d := data[at..next];
    assert |d[a..b]| == |data[at + a..at + b]|;
    assert forall i :: 0 <= i < b - a ==> d[a..b][i] == data[at + a..at + b][i];
  }

  lemma RunTaken(data: Bytes, at: nat, base: Byte, b: Bytes, next: nat)
    requires (base == 0x40 || base == 0x70) && RunAt(data, at, base, b, next)
    ensures at < |data| && base as int <= data[at] as int <= base as int + 0x23
    ensures TakeRun(data, at + 1, data[at] - base) == Ok(Read(b, next))
  {
    hide FromBE;
    var d := data[at..next];
    assert d[0] == data[at];
    if |b| <= 0x20 {
      assert data[at + 1..next] == d[1..];
    } else if |b| < 0x100 {
      O.OneByte(data[at + 1..at + 2]);
      assert d[1] == data[at + 1] && data[at + 2..next] == d[2..];
    } else if |b| < 0x1_0000 {
      O.TwoBytes(data[at + 1..at + 3]);
      assert d[1] == data[at + 1] && d[2] == data[at + 2] && data[at + 3..next] == d[3..];
    } else {
      SliceOfSlice(data, at, next, 1, 5);
      assert data[at + 5..next] == d[5..];
    }
  }

  /** Strings and bytes. */
  lemma RunsRead(data: Bytes, at: nat, b: Bytes, next: nat)
    ensures RunAt(data, at, 0x40, b, next) ==> ReadHead(data, at) == Ok(Read(Scalar(OStr(Utf8.Decode(b))), next))
    ensures RunAt(data, at, 0x70, b, next) ==> ReadHead(data, at) == Ok(Read(Scalar(OBytes(b)), next))
  {
    hide RunAt, TakeRun, FromLE, FromBE, Utf8.Decode;
    if RunAt(data, at, 0x40, b, next) {
      RunTaken(data, at, 0x40, b, next);
    }
    if RunAt(data, at, 0x70, b, next) {
      RunTaken(data, at, 0x70, b, next);
    }
  }
}
