/** How the binary plist parser reads the bytes of any file, by their values. */
module BinaryPlistMarkers {
  import opened Bytes
  import opened Wrappers
  import opened PlistGraph
  import opened BinaryPlistReading
  import O = ByteOrder
  import B = BinaryPlistObjects
  import F = BinaryPlistFormat

  // ----- sized objects -----

  /** A sized object begins at `at`: marker and size, its contents from `start` on. */
  predicate HasSize(buf: Bytes, at: nat, base: nat, size: nat, start: nat) {
    || (size < 15 && at < |buf| && buf[at] == base + size && start == at + 1)
    || (at + 2 < |buf| && buf[at] == base + 15 && buf[at + 1] == 0x10 && size == buf[at + 2] && start == at + 3)
    || (at + 3 < |buf| && buf[at] == base + 15 && buf[at + 1] == 0x11
        && size == 0x100 * buf[at + 2] as int + buf[at + 3] as int && start == at + 4)
    || (at + 5 < |buf| && buf[at] == base + 15 && buf[at + 1] == 0x12 && size < 0x8000_0000
        && size == 0x100_0000 * buf[at + 2] as int + 0x1_0000 * buf[at + 3] as int + 0x100 * buf[at + 4] as int
                   + buf[at + 5] as int
        && start == at + 6)
  }

  lemma SizeRead(buf: Bytes, at: nat, base: nat, size: nat, start: nat)
    requires HasSize(buf, at, base, size, start) && base % 16 == 0 && base <= 0xf0
    ensures HeaderAt(buf, at).Ok?
    ensures var h := HeaderAt(buf, at).value; h.kind == base && h.start == start && h.length == size
  {
    hide FromBE;
    B.Pow2Values();
    if buf[at] != base + size || size >= 15 {
      assert buf[at] % 16 == 15 && buf[at] - 15 == base;
      var k := buf[at + 1] % 16;
      assert buf[at + 1] - k == 0x10;
      if k == 0 {
        O.OneByte(buf[at + 2..at + 3]);
      } else if k == 1 {
        O.TwoBytes(buf[at + 2..at + 4]);
      } else {
        O.FourBytes(buf[at + 2..at + 6]);
      }
      ToInt32Small(size);
    } else {
      assert buf[at] % 16 == size;
    }
  }

  /** Arrays, dictionaries, data and strings, short and long. */
  lemma SizedRead(buf: Bytes, at: nat, size: nat, start: nat)
    ensures HasSize(buf, at, 0xa0, size, start) ==> ParseObjectAt(buf, at) == Ok(Shell(true, size, start))
    ensures HasSize(buf, at, 0xd0, size, start) ==> ParseObjectAt(buf, at) == Ok(Shell(false, size, start))
    ensures HasSize(buf, at, 0x40, size, start) && start + size <= |buf| ==>
              ParseObjectAt(buf, at) == Ok(Blob(buf[start..start + size]))
    ensures HasSize(buf, at, 0x50, size, start) && start + size <= |buf| ==>
              exists s: Text :: ParseObjectAt(buf, at) == Ok(Leaf(PStr(s))) && |s| == size
                                && forall i :: 0 <= i < size ==> s[i] == buf[start + i] % 128
    ensures HasSize(buf, at, 0x60, size, start) && start + 2 * size <= |buf| ==>
              exists s: Text :: ParseObjectAt(buf, at) == Ok(Leaf(PStr(s))) && |s| == size
                                && forall i :: 0 <= i < size ==>
                                     s[i] == 0x100 * buf[start + 2 * i] as int + buf[start + 2 * i + 1] as int
  {
    hide HeaderAt, HasSize;
    if HasSize(buf, at, 0xa0, size, start) {
      SizeRead(buf, at, 0xa0, size, start);
    }
    if HasSize(buf, at, 0xd0, size, start) {
      SizeRead(buf, at, 0xd0, size, start);
    }
    if HasSize(buf, at, 0x40, size, start) {
      SizeRead(buf, at, 0x40, size, start);
    }
    if HasSize(buf, at, 0x50, size, start) && start + size <= |buf| {
      SizeRead(buf, at, 0x50, size, start);
      AsciiRead(buf, at, size, start);
    }
    if HasSize(buf, at, 0x60, size, start) && start + 2 * size <= |buf| {
      SizeRead(buf, at, 0x60, size, start);
      UnicodeRead(buf, at, size, start);
    }
  }

  lemma AsciiRead(buf: Bytes, at: nat, size: nat, start: nat)
    requires HeaderAt(buf, at).Ok? && start + size <= |buf|
    requires var h := HeaderAt(buf, at).value; h.kind == 0x50 && h.start == start && h.length == size
    ensures exists s: Text :: ParseObjectAt(buf, at) == Ok(Leaf(PStr(s))) && |s| == size
                              && forall i :: 0 <= i < size ==> s[i] == buf[start + i] % 128
  {
    hide HeaderAt;
    var d := buf[start..start + size];
    var s := AsciiText(d);
    assert ParseObjectAt(buf, at) == Ok(Leaf(PStr(s)));
    assert forall i :: 0 <= i < size ==> s[i] == d[i] % 128;
  }

  lemma UnicodeRead(buf: Bytes, at: nat, size: nat, start: nat)
    requires HeaderAt(buf, at).Ok? && start + 2 * size <= |buf|
    requires var h := HeaderAt(buf, at).value; h.kind == 0x60 && h.start == start && h.length == size
    ensures exists s: Text :: ParseObjectAt(buf, at) == Ok(Leaf(PStr(s))) && |s| == size
                              && forall i :: 0 <= i < size ==>
                                   s[i] == 0x100 * buf[start + 2 * i] as int + buf[start + 2 * i + 1] as int
  {
    hide HeaderAt;
    var d := buf[start..start + 2 * size];
    var s := Utf16Text(d, size);
    assert ParseObjectAt(buf, at) == Ok(Leaf(PStr(s)));
    forall i | 0 <= i < size
      ensures s[i] == 0x100 * buf[start + 2 * i] as int + buf[start + 2 * i + 1] as int
    {
      assert d[2 * i] == buf[start + 2 * i] && d[2 * i + 1] == buf[start + 2 * i + 1];
    }
  }

  // ----- everything else -----

  lemma PlainHeader(buf: Bytes, at: nat, base: nat, info: nat)
    requires at < |buf| && info < 15 && base % 16 == 0 && buf[at] == base + info
    ensures HeaderAt(buf, at) == Ok(ObjectHeader(base, info, at + 1, info))
  {
    assert buf[at] % 16 == info;
  }

  /** Null, false and true. */
  lemma SingletonsRead(buf: Bytes, at: nat)
    requires at < |buf|
    ensures buf[at] == 0x00 ==> ParseObjectAt(buf, at) == Ok(Leaf(PNull))
    ensures buf[at] == 0x08 ==> ParseObjectAt(buf, at) == Ok(Leaf(PBool(false)))
    ensures buf[at] == 0x09 ==> ParseObjectAt(buf, at) == Ok(Leaf(PBool(true)))
    ensures 0x01 <= buf[at] <= 0x07 || 0x0a <= buf[at] <= 0x0e ==> ParseObjectAt(buf, at).Err?
  {
    if buf[at] < 15 {
      PlainHeader(buf, at, 0, buf[at]);
    }
  }

  /** Two's complement of `n` in `w` bytes. */
  lemma SignedValue(n: nat, w: nat)
    requires n < Pow256(w)
    ensures Signed(n, w) == if n < Pow256(w) - n then n else n - Pow256(w)
  {
    SmallMod(n, Pow256(w));
  }

  /** Integers of 1, 2 and 4 bytes. */
  lemma SmallIntegersRead(buf: Bytes, at: nat)
    requires at < |buf|
    ensures buf[at] == 0x10 && at + 1 < |buf| ==>
              var n: int := buf[at + 1]; ParseObjectAt(buf, at) == Ok(Leaf(PNum(if n < 0x80 then n else n - 0x100)))
    ensures buf[at] == 0x11 && at + 2 < |buf| ==>
              var n := 0x100 * buf[at + 1] as int + buf[at + 2] as int;
              ParseObjectAt(buf, at) == Ok(Leaf(PNum(if n < 0x8000 then n else n - 0x1_0000)))
    ensures buf[at] == 0x12 && at + 4 < |buf| ==>
              var n := 0x100_0000 * buf[at + 1] as int + 0x1_0000 * buf[at + 2] as int + 0x100 * buf[at + 3] as int
                       + buf[at + 4] as int;
              ParseObjectAt(buf, at) == Ok(Leaf(PNum(if n < 0x8000_0000 then n else n - 0x1_0000_0000)))
  {
    hide FromBE, Signed, HeaderAt, Pow256;
    B.Pow2Values();
    Pow256Values();
    if buf[at] == 0x10 && at + 1 < |buf| {
      PlainHeader(buf, at, 0x10, 0);
      O.OneByte(buf[at + 1..at + 2]);
      SignedValue(FromBE(buf[at + 1..at + 2]), 1);
    } else if buf[at] == 0x11 && at + 2 < |buf| {
      PlainHeader(buf, at, 0x10, 1);
      O.TwoBytes(buf[at + 1..at + 3]);
      SignedValue(FromBE(buf[at + 1..at + 3]), 2);
    } else if buf[at] == 0x12 && at + 4 < |buf| {
      PlainHeader(buf, at, 0x10, 2);
      O.FourBytes(buf[at + 1..at + 5]);
      SignedValue(FromBE(buf[at + 1..at + 5]), 4);
    }
  }

  /** Integers of 8 and 16 bytes: a number where a double is exact, a bigint otherwise. */
  lemma WideIntegersRead(buf: Bytes, at: nat, w: nat)
    requires at + w < |buf| && ((buf[at] == 0x13 && w == 8) || (buf[at] == 0x14 && w == 16))
    ensures var u := FromBE(buf[at + 1..at + 1 + w]);
            var n := if u < Pow256(w) - u then u else u - Pow256(w);
            ParseObjectAt(buf, at) == Ok(Leaf(if ExactDouble(n) then PNum(n) else PBig(n)))
  {
    hide FromBE, Signed, HeaderAt, Pow256, ExactDouble;
    B.Pow2Values();
    assert Pow2(4) == 16;
    PlainHeader(buf, at, 0x10, if w == 8 then 3 else 4);
    FromBEBound(buf[at + 1..at + 1 + w]);
    SignedValue(FromBE(buf[at + 1..at + 1 + w]), w);
  }

  /** Reals, dates and UIDs of up to six bytes. */
  lemma FixedRead(buf: Bytes, at: nat)
    requires at < |buf|
    ensures buf[at] == 0x22 && at + 4 < |buf| ==> ParseObjectAt(buf, at) == Ok(Leaf(PReal(buf[at + 1..at + 5])))
    ensures buf[at] == 0x23 && at + 8 < |buf| ==> ParseObjectAt(buf, at) == Ok(Leaf(PReal(buf[at + 1..at + 9])))
    ensures buf[at] == 0x33 && at + 8 < |buf| ==> ParseObjectAt(buf, at) == Ok(Leaf(PDate(buf[at + 1..at + 9])))
    ensures 0x80 <= buf[at] <= 0x85 ==>
              var w := buf[at] as int - 0x80 + 1;
              at + w < |buf| && FromBE(buf[at + 1..at + 1 + w]) < 0x8000_0000 ==>
                ParseObjectAt(buf, at) == Ok(Leaf(PNum(FromBE(buf[at + 1..at + 1 + w]))))
  {
    hide FromBE, HeaderAt;
    B.Pow2Values();
    if 0x22 <= buf[at] <= 0x23 {
      PlainHeader(buf, at, 0x20, buf[at] - 0x20);
    } else if buf[at] == 0x33 {
      PlainHeader(buf, at, 0x30, 3);
    } else if 0x80 <= buf[at] <= 0x85 {
      var w := buf[at] - 0x80 + 1;
      PlainHeader(buf, at, 0x80, w - 1);
      if at + w < |buf| && FromBE(buf[at + 1..at + 1 + w]) < 0x8000_0000 {
        ToInt32Small(FromBE(buf[at + 1..at + 1 + w]));
      }
    }
  }

  /** The types the parser does not know. */
  lemma UnknownRead(buf: Bytes, at: nat, base: nat)
    requires at < |buf| && base in {0x70, 0x90, 0xb0, 0xc0, 0xe0, 0xf0} && base <= buf[at] < base + 15
    ensures ParseObjectAt(buf, at).Err?
  {
    hide HeaderAt;
    PlainHeader(buf, at, base, buf[at] - base);
  }

  // ----- trailer, offsets and references -----

  /** Only files that begin with "bplist00" are read, and the trailer is their last 32 bytes. */
  lemma FileRead(buf: Bytes)
    ensures |buf| < 8 || buf[..8] != [0x62, 0x70, 0x6c, 0x69, 0x73, 0x74, 0x30, 0x30] ==> ParseBytes(buf).Err?
    ensures |buf| < 32 <==> ReadTrailer(buf).Err?
    ensures |buf| >= 32 ==>
              var t := |buf| - 32;
              ReadTrailer(buf) == Ok(TrailerInfo(buf[t + 6], buf[t + 7], FromBE(buf[t + 8..t + 16]),
                                                 FromBE(buf[t + 16..t + 24]), FromBE(buf[t + 24..t + 32])))
  {
    hide FromBE, ParseFirst, ResolveFirst, TopObject;
    if |buf| >= 32 {
      var t := |buf| - 32;
      assert buf[t..][8..16] == buf[t + 8..t + 16] && buf[t..][16..24] == buf[t + 16..t + 24];
      assert buf[t..][24..32] == buf[t + 24..t + 32];
    }
  }

  /** Offset `i`, and reference `j` of a container, are the numbers at their own places. */
  lemma PlacesRead(buf: Bytes, t: TrailerInfo, start: nat, i: nat)
    ensures 0 < t.offsetSize <= 6 && t.tableOffset + i * t.offsetSize + t.offsetSize <= |buf| ==>
              var n := FromBE(buf[t.tableOffset + i * t.offsetSize..t.tableOffset + i * t.offsetSize + t.offsetSize]);
              n < 0x8000_0000 ==> ReadOffset(buf, t, i) == Ok(n)
    ensures 0 < t.refSize <= 6 && start + i * t.refSize + t.refSize <= |buf| ==>
              var n := FromBE(buf[start + i * t.refSize..start + i * t.refSize + t.refSize]);
              n < 0x8000_0000 ==> ReadObjectRef(buf, t, start, i) == Ok(n)
  {
    hide FromBE;
  }

  /** All key references of a dictionary stand before all its value references. */
  lemma EntryRead(buf: Bytes, t: TrailerInfo, st: State, start: nat, count: nat, j: nat)
    requires 0 < t.refSize <= 6 && j < count && start + 2 * count * t.refSize <= |buf|
    ensures 0 <= start + j * t.refSize <= start + j * t.refSize + t.refSize <= |buf|
    ensures 0 <= start + (count + j) * t.refSize <= start + (count + j) * t.refSize + t.refSize <= |buf|
    ensures var k := FromBE(buf[start + j * t.refSize..start + j * t.refSize + t.refSize]);
            var v := FromBE(buf[start + (count + j) * t.refSize..start + (count + j) * t.refSize + t.refSize]);
            k < 0x8000_0000 && v < 0x8000_0000 ==>
              EntryRefs(buf, t, st, start, count, j) ==
              if k < |st.table| && st.table[k].Plain? && st.table[k].v.PStr? then Ok((st.table[k].v.s, v))
              else Err(F.TypeError)
  {
    hide FromBE, ReadObjectRef;
    MulMono(j + 1, 2 * count, t.refSize);
    MulMono(count + j + 1, 2 * count, t.refSize);
    PlacesRead(buf, t, start, j);
    PlacesRead(buf, t, start, count + j);
  }

  // ----- a top object that comes out empty -----

  /** Table entries `2 * m - 1` and `2 * m` are the text `key` and a finished value. */
  predicate PairAt(st: State, m: nat, key: Text) {
    && m > 0 && 2 * m < |st.table| && st.table[2 * m - 1].Plain? && st.table[2 * m - 1].v == PStr(key)
    && st.table[2 * m].Plain? && !IsTempObject(st, st.table[2 * m])
  }

  lemma {:induction false} LookupPut(es: seq<PEntry>, key: Text, value: PV, k: Text)
    ensures Lookup(Put(es, key, value), k) == if k == key then Some(value) else Lookup(es, k)
  {
    if es != [] && es[0].key != key {
      LookupPut(es[1..], key, value, k);
    }
  }

  /** The dictionary built in its place has, for each text, the value behind its last place in the table. */
  lemma {:induction false} SalvagedRead(st: State, n: nat, key: Text)
    ensures var v := Lookup(SalvagedEntries(st, n), key);
            if v.Some? then
              exists m :: 0 < m <= n && PairAt(st, m, key) && v.value == st.table[2 * m].v
                          && forall j :: m < j <= n ==> !PairAt(st, j, key)
            else forall m :: 0 < m <= n ==> !PairAt(st, m, key)
  {
    hide IsTempObject;
    if n > 0 {
      SalvagedRead(st, n - 1, key);
      var init := SalvagedEntries(st, n - 1);
      TempIsTemporary(st, 2 * n);
      if 2 * n < |st.table| && KeyAt(st, 2 * n - 1).Ok? {
        LookupPut(init, KeyAt(st, 2 * n - 1).value, if st.table[2 * n].Plain? then st.table[2 * n].v else PNull, key);
      }
    }
  }

  lemma TempIsTemporary(st: State, i: nat)
    ensures i < |st.table| && !IsTempObject(st, st.table[i]) ==> st.table[i].Plain?
  {
  }

  /** It takes the place of entry 0 when that is the top object, finished, and has no keys; else the top is kept. */
  lemma TopRead(st: State, t: TrailerInfo, key: Text)
    ensures var p := TopObject(st, t);
            if t.topObject == 0 && |st.table| > 1 && st.table[0].Plain? && !LooksTemporary(st, st.table[0].v)
               && HasNoKeys(st, st.table[0].v)
            then
              p.value.PRef? && p.value.id in p.objects && p.objects[p.value.id].PDict?
              && p.objects[p.value.id].entries == SalvagedEntries(st, |st.table| / 2)
              && forall id :: id in st.objects && id != |st.table|
                  ==> id in p.objects && p.objects[id] == st.objects[id]
            else p == Parsed(st.objects, SlotValue(st, t.topObject))
  {
    hide SalvagedEntries, HasNoKeys, LooksTemporary, SlotValue;
  }
}
