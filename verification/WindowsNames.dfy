/** Windows names: exactly when one ends in a dot or a space, and exactly when one is a reserved device name. */
module WindowsNames {
  import opened Bytes
  import opened Wrappers
  import opened FilenameSanitizer
  import opened FilenameTheorems
  import Utf8

  // ----- how a Windows name can end -----

  predicate TrailingUnit(u: CodeUnit) {
    u == DOT || u == SPACE
  }

  /** `k` is the cut: the last code-point boundary of `t` within the limit. */
  ghost predicate IsCut(t: Text, limit: nat, k: nat) {
    && k <= |t| && Boundary(t, k) && ByteLength(t[..k]) <= limit
    && forall j :: k < j <= |t| && Boundary(t, j) ==> ByteLength(t[..j]) > limit
  }

  lemma CutIsTruncation(t: Text, limit: nat, k: nat)
    requires IsCut(t, limit, k)
    ensures Truncate(t, limit) == t[..k]
  {
    hide Truncate, Boundary, ByteLength;
    TruncateIsLongest(t, limit);
    var r := Truncate(t, limit);
    assert t[..|r|] == r;
  }

  lemma TruncationIsCut(t: Text, limit: nat)
    ensures |Truncate(t, limit)| <= |t| && t[..|Truncate(t, limit)|] == Truncate(t, limit)
    ensures IsCut(t, limit, |Truncate(t, limit)|)
  {
    hide Truncate, Boundary, ByteLength;
    TruncateIsLongest(t, limit);
    var r := Truncate(t, limit);
    assert t[..|r|] == r;
  }

  /** A name with room for one code point is not cut to nothing. */
  lemma SomethingKept(t: Text, limit: nat)
    requires t != [] && limit >= 4
    ensures Truncate(t, limit) != []
  {
    if Truncate(t, limit) == [] {
      TruncateNothing(t, limit);
    }
  }

  /**
   * A sanitised Windows name ends in a dot or a space exactly when the cleaned name is longer than 255 bytes
   * and has one in front of its cut: truncation comes after the trailing dots and spaces are stripped.
   */
  lemma WindowsEndsExactlyWhen(name: Text)
    ensures var r, c := Sanitize(Windows, name), Cleaned(Windows, name);
            r != [] && (TrailingUnit(r[|r| - 1])
                        <==> ByteLength(c) > MAX_FILENAME_BYTES
                             && exists k :: 0 < k <= |c| && IsCut(c, MAX_FILENAME_BYTES, k) && TrailingUnit(c[k - 1]))
  {
    hide Cleaned, Truncate, ByteLength, IsCut, Boundary;
    var c := Cleaned(Windows, name);
    CleanedLeaves(Windows, name);
    TruncationIsCut(c, MAX_FILENAME_BYTES);
    if c != [] {
      SomethingKept(c, MAX_FILENAME_BYTES);
      var r := Truncate(c, MAX_FILENAME_BYTES);
      assert c[..|r|] == r && c[|r| - 1] == r[|r| - 1];
      if ByteLength(c) <= MAX_FILENAME_BYTES {
        TruncateShort(c, MAX_FILENAME_BYTES);
      }
      forall k | 0 < k <= |c| && IsCut(c, MAX_FILENAME_BYTES, k)
        ensures k == |r|
      {
        CutIsTruncation(c, MAX_FILENAME_BYTES, k);
      }
    }
  }

  lemma {:induction false} StripPlain(t: Text)
    requires forall u :: u in t ==> !Removed(Windows, u)
    ensures Strip(Windows, t) == t
  {
    hide Removed;
    if t != [] {
      StripPlain(t[1..]);
      assert t == [t[0]] + t[1..];
    }
  }

  // ----- boundaries -----

  /** In front of a unit that is not a low surrogate, and at the end, there is a boundary. */
  lemma {:induction false} BoundaryBefore(t: Text, j: nat)
    requires j <= |t| && (j == |t| || !Utf8.IsLow(t[j]))
    ensures Boundary(t, j)
    decreases |t|
  {
    if j > 0 {
      var w := Utf8.FirstWidth(t);
      assert w <= j;
      BoundaryBefore(t[w..], j - w);
    }
  }

  /** Behind a unit of its own there is one too. */
  lemma {:induction false} BoundaryBehind(t: Text, j: nat)
    requires j < |t| && Boundary(t, j) && !Utf8.IsHigh(t[j])
    ensures Boundary(t, j + 1)
    decreases |t|
  {
    var w := Utf8.FirstWidth(t);
    if j > 0 {
      BoundaryBehind(t[w..], j - w);
    }
  }

  predicate Ascii(t: Text) {
    forall i :: 0 <= i < |t| ==> t[i] < 0x80
  }

  lemma AsciiPrefix(t: Text, k: nat)
    requires k <= |t| && Ascii(t[..k])
    ensures Boundary(t, k) && ByteLength(t[..k]) == k
  {
    hide Boundary;
    Utf8.EncodeAscii(t[..k]);
    if k == 0 {
      BoundaryStart(t);
    } else {
      assert t[k - 1] == t[..k][k - 1];
      BoundaryBefore(t, k - 1);
      BoundaryBehind(t, k - 1);
    }
  }

  lemma BoundaryStart(t: Text)
    ensures Boundary(t, 0)
  {
  }

  /** A line break adds to the length, and more may follow it. */
  lemma PrefixThroughBreak(t: Text, j: nat, n: nat)
    requires j < n <= |t| && IsLineBreak(t[j])
    ensures ByteLength(t[..j + 1]) <= ByteLength(t[..n])
  {
    hide Utf8.Encode;
    var a, b, c := t[..j], t[j..j + 1], t[j..n];
    assert t[..j + 1] == a + b && t[..n] == a + c;
    Utf8.EncodeJoin(a, b);
    Utf8.EncodeJoin(a, c);
    FirstUnit(c);
    assert b == [c[0]];
  }

  lemma FirstUnit(c: Text)
    requires c != [] && !Utf8.IsHigh(c[0])
    ensures ByteLength([c[0]]) <= ByteLength(c)
  {
    assert Utf8.Encode([c[0]]) == Utf8.EncodePoint(c[0]) + Utf8.Encode([]);
  }

  /** A line break at `j` is inside the truncation exactly when the prefix through it is within the limit. */
  lemma BreakKeptExactlyWhen(t: Text, limit: nat, j: nat)
    requires j < |t| && IsLineBreak(t[j])
    ensures j < |Truncate(t, limit)| <==> ByteLength(t[..j + 1]) <= limit
  {
    hide Truncate, Boundary, ByteLength;
    var n := |Truncate(t, limit)|;
    TruncationIsCut(t, limit);
    BoundaryBefore(t, j);
    BoundaryBehind(t, j);
    if j < n {
      PrefixThroughBreak(t, j, n);
    }
    if ByteLength(t[..j + 1]) <= limit {
      TruncateMaximal(t, limit, j + 1);
    }
  }

  /** When more than three bytes of the limit are left, nothing was cut off. */
  lemma {:induction false} RoomLeft(t: Text, limit: nat)
    requires ByteLength(Truncate(t, limit)) + 4 <= limit
    ensures Truncate(t, limit) == t
    decreases |t|
  {
    hide Truncate, Boundary, ByteLength;
    TruncationIsCut(t, limit);
    var n := |Truncate(t, limit)|;
    if n < |t| {
      NextBoundary(t, n);
    }
  }

  /** The boundary after `n` is at most four bytes on. */
  lemma {:induction false} NextBoundary(t: Text, n: nat)
    requires Boundary(t, n) && n < |t|
    ensures exists j :: n < j <= |t| && Boundary(t, j) && ByteLength(t[..j]) <= ByteLength(t[..n]) + 4
    decreases |t|
  {
    hide Utf8.EncodePoint, Utf8.FirstPoint, Utf8.FirstWidth;
    var w := Utf8.FirstWidth(t);
    if n == 0 {
      BoundaryStart(t[w..]);
      assert Boundary(t, w);
      PrefixBytes(t, w);
      assert t[w..][..0] == [];
    } else {
      NextBoundary(t[w..], n - w);
      var j :| n - w < j <= |t[w..]| && Boundary(t[w..], j)
          && ByteLength(t[w..][..j]) <= ByteLength(t[w..][..n - w]) + 4;
      assert Boundary(t, j + w);
      PrefixBytes(t, j + w);
      PrefixBytes(t, n);
    }
  }

  // ----- device names -----

  /** Device names are three or four ASCII letters and digits. */
  lemma DeviceShape(t: Text)
    requires IsDeviceName(t)
    ensures 3 <= |t| <= 4 && Ascii(t)
    ensures forall i :: 0 <= i < |t| ==> !TrailingUnit(t[i]) && !IsLineBreak(t[i])
  {
    var l := LowerAscii(t);
    assert forall i :: 0 <= i < |t| ==> l[i] == Lower(t[i]);
    if |t| == 4 {
      assert l[..3][0] == l[0] && l[..3][1] == l[1] && l[..3][2] == l[2];
    }
  }

  /** A device name followed by dots and spaces only, a space first. */
  predicate SpacedDevice(w: Text) {
    exists k :: 0 <= k < |w| && IsDeviceName(w[..k]) && w[k] == SPACE && forall i :: k < i < |w| ==> TrailingUnit(w[i])
  }

  /** A device name and a dot, then text whose first line break is at `j`, behind the cut at 255 bytes. */
  predicate LongDeviceAt(w: Text, k: nat, j: nat) {
    && k < j < |w| && w[k] == DOT && IsDeviceName(w[..k]) && IsLineBreak(w[j])
    && (forall i :: k < i < j ==> !IsLineBreak(w[i]))
    && ByteLength(w[..j + 1]) > MAX_FILENAME_BYTES
  }

  ghost predicate LongDevice(w: Text) {
    exists k: nat, j: nat :: LongDeviceAt(w, k, j)
  }

  /** Where a device name ends in `w`: no other prefix of `w` followed by a dot is one. */
  lemma OneDevice(w: Text, k: nat, m: nat)
    requires k < |w| && IsDeviceName(w[..k]) && TrailingUnit(w[k]) && m < |w| && w[m] == DOT && IsDeviceName(w[..m])
    ensures m == k
  {
    hide IsDeviceName;
    DeviceShape(w[..k]);
    DeviceShape(w[..m]);
    assert forall i :: 0 <= i < k ==> w[i] == w[..k][i];
    assert forall i :: 0 <= i < m ==> w[i] == w[..m][i];
  }

  lemma LongerIsNoDevice(w: Text, k: nat)
    requires k < |w| && TrailingUnit(w[k])
    ensures !IsDeviceName(w)
  {
    hide IsDeviceName;
    if IsDeviceName(w) {
      DeviceShape(w);
    }
  }

  lemma SpacedNotReserved(w: Text, k: nat)
    requires k < |w| && IsDeviceName(w[..k]) && w[k] == SPACE
    ensures !IsReserved(w)
  {
    hide IsDeviceName;
    LongerIsNoDevice(w, k);
    forall m: nat | m < |w| && w[m] == DOT && IsDeviceName(w[..m])
      ensures false
    {
      OneDevice(w, k, m);
    }
  }

  lemma LongNotReserved(w: Text, k: nat, j: nat)
    requires LongDeviceAt(w, k, j)
    ensures !IsReserved(w)
  {
    hide IsDeviceName, ByteLength;
    LongerIsNoDevice(w, k);
    forall m: nat | m < |w| && w[m] == DOT && IsDeviceName(w[..m])
      ensures exists i :: m < i < |w| && IsLineBreak(w[i])
    {
      OneDevice(w, k, m);
    }
  }

  // ----- trimming -----

  lemma {:induction false} TrimEndDrops(t: Text)
    ensures TrimEnd(t) <= t && forall i :: |TrimEnd(t)| <= i < |t| ==> TrailingUnit(t[i])
  {
    if t != [] && TrailingUnit(t[|t| - 1]) {
      TrimEndDrops(t[..|t| - 1]);
    }
  }

  lemma {:induction false} TrimEndExactly(t: Text, k: nat)
    requires k <= |t| && (k > 0 ==> !TrailingUnit(t[k - 1])) && forall i :: k <= i < |t| ==> TrailingUnit(t[i])
    ensures TrimEnd(t) == t[..k]
    decreases |t|
  {
    if k < |t| {
      var n := |t| - 1;
      TrimEndExactly(t[..n], k);
      assert t[..n][..k] == t[..k];
    } else {
      assert t[..k] == t;
    }
  }

  // ----- reserved results -----

  /** What is truncated: the stripped name, trimmed, unless it is only dots or reserved. */
  lemma CleanedOf(name: Text)
    ensures var w := Strip(Windows, name);
            Cleaned(Windows, name) == if OnlyDots(w) || IsReserved(w) then [] else TrimEnd(w)
  {
    hide Strip, IsDeviceName, TrimEnd;
    var w := Strip(Windows, name);
    TrimEndNothing();
    if OnlyDots(w) {
      NothingReserved();
    }
  }

  lemma TrimEndNothing()
    ensures TrimEnd([]) == []
  {
  }

  lemma NothingReserved()
    ensures !IsReserved([]) && !IsReserved(EMPTY_NAME)
  {
  }

  lemma SpacedBecomesReserved(w: Text, k: nat)
    requires k < |w| && IsDeviceName(w[..k]) && w[k] == SPACE && forall i :: k < i < |w| ==> TrailingUnit(w[i])
    ensures Finalize(TrimEnd(w)) == w[..k] && IsReserved(w[..k])
  {
    hide IsDeviceName, Truncate, TrimEnd, ByteLength;
    DeviceShape(w[..k]);
    assert w[k - 1] == w[..k][k - 1];
    TrimEndExactly(w, k);
    assert w[..k][..k] == w[..k];
    AsciiPrefix(w[..k], k);
    TruncateShort(w[..k], MAX_FILENAME_BYTES);
  }

  lemma LongBecomesReserved(w: Text, k: nat, j: nat)
    requires LongDeviceAt(w, k, j)
    ensures IsReserved(Finalize(TrimEnd(w)))
  {
    hide IsDeviceName, Truncate, TrimEnd, ByteLength, Boundary;
    var c := TrimEnd(w);
    TrimEndDrops(w);
    assert |c| > j && c[j] == w[j] && c[..j + 1] == w[..j + 1];
    var r := Truncate(c, MAX_FILENAME_BYTES);
    BreakKeptExactlyWhen(c, MAX_FILENAME_BYTES, j);
    DeviceShape(w[..k]);
    assert c[..k + 1] == w[..k] + [DOT];
    AsciiPrefix(c, k + 1);
    TruncateMaximal(c, MAX_FILENAME_BYTES, k + 1);
    TruncationIsCut(c, MAX_FILENAME_BYTES);
    assert c[..|r|] == r && r[k] == DOT && r[..k] == w[..k];
    assert forall i :: k < i < |r| ==> r[i] == w[i];
  }

  /** A whole device name that comes out was the whole trimmed name. */
  lemma DeviceCameWhole(w: Text)
    requires !IsReserved(w) && IsDeviceName(Truncate(TrimEnd(w), MAX_FILENAME_BYTES))
    ensures SpacedDevice(w)
  {
    hide IsDeviceName, Truncate, TrimEnd, ByteLength, Boundary;
    var c := TrimEnd(w);
    var r := Truncate(c, MAX_FILENAME_BYTES);
    DeviceShape(r);
    assert r[..|r|] == r;
    AsciiPrefix(r, |r|);
    RoomLeft(c, MAX_FILENAME_BYTES);
    TrimEndDrops(w);
    var k := |c|;
    assert w[..k] == c && (k == |w| ==> w == c);
    assert forall i :: k <= i < |w| ==> !IsLineBreak(w[i]);
  }

  lemma {:induction false} FirstBreak(w: Text, k: nat, i: nat) returns (j: nat)
    requires k < i < |w| && IsLineBreak(w[i])
    ensures k < j < |w| && IsLineBreak(w[j]) && forall m :: k < m < j ==> !IsLineBreak(w[m])
    decreases i
  {
    if m: nat :| k < m < i && IsLineBreak(w[m]) {
      j := FirstBreak(w, k, m);
    } else {
      j := i;
    }
  }

  /** A device name with an extension that comes out lost a line break at the cut. */
  lemma ExtensionWasCut(w: Text, k: nat)
    requires !IsReserved(w)
    requires var r := Truncate(TrimEnd(w), MAX_FILENAME_BYTES);
             k < |r| && r[k] == DOT && IsDeviceName(r[..k]) && forall i :: k < i < |r| ==> !IsLineBreak(r[i])
    ensures LongDevice(w)
  {
    hide IsDeviceName, Truncate, TrimEnd, ByteLength, Boundary;
    var c := TrimEnd(w);
    var r := Truncate(c, MAX_FILENAME_BYTES);
    TrimEndDrops(w);
    TruncationIsCut(c, MAX_FILENAME_BYTES);
    assert r == c[..|r|] == w[..|r|] && r[..k] == w[..k];
    assert exists i :: k < i < |w| && IsLineBreak(w[i]);
    var i: nat :| k < i < |w| && IsLineBreak(w[i]);
    var j := FirstBreak(w, k, i);
    assert j < |c| && c[j] == w[j] && c[..j + 1] == w[..j + 1];
    assert forall m :: 0 <= m < |r| ==> r[m] == w[m];
    BreakKeptExactlyWhen(c, MAX_FILENAME_BYTES, j);
    assert LongDeviceAt(w, k, j);
  }

  lemma SpacedIsNotDots(w: Text)
    requires SpacedDevice(w) || LongDevice(w)
    ensures !OnlyDots(w) && !IsReserved(w)
  {
    hide IsDeviceName, IsReserved, ByteLength;
    if SpacedDevice(w) {
      var k :| 0 <= k < |w| && IsDeviceName(w[..k]) && w[k] == SPACE && forall i :: k < i < |w| ==> TrailingUnit(w[i]);
      SpacedNotReserved(w, k);
    } else {
      var k: nat, j: nat :| LongDeviceAt(w, k, j);
      LongNotReserved(w, k, j);
    }
  }

  lemma BecomesReserved(w: Text)
    requires SpacedDevice(w) || LongDevice(w)
    ensures IsReserved(Finalize(TrimEnd(w)))
  {
    hide IsDeviceName, IsReserved, ByteLength, Truncate, TrimEnd;
    if SpacedDevice(w) {
      var k: nat :| k < |w| && IsDeviceName(w[..k]) && w[k] == SPACE && forall i :: k < i < |w| ==> TrailingUnit(w[i]);
      SpacedBecomesReserved(w, k);
    } else {
      var k: nat, j: nat :| LongDeviceAt(w, k, j);
      LongBecomesReserved(w, k, j);
    }
  }

  lemma WasSpacedOrLong(w: Text)
    requires !IsReserved(w) && IsReserved(Finalize(TrimEnd(w)))
    ensures SpacedDevice(w) || LongDevice(w)
  {
    hide IsDeviceName, SpacedDevice, LongDevice, Truncate, TrimEnd;
    NothingReserved();
    var r := Truncate(TrimEnd(w), MAX_FILENAME_BYTES);
    if IsDeviceName(r) {
      DeviceCameWhole(w);
    } else {
      var k: nat :| k < |r| && r[k] == DOT && IsDeviceName(r[..k]) && forall i :: k < i < |r| ==> !IsLineBreak(r[i]);
      ExtensionWasCut(w, k);
    }
  }

  /**
   * A sanitised Windows name is a reserved device name exactly when, after illegal and control characters
   * are removed, the name is a device name followed by dots and spaces of which the first is a space, or a
   * device name, a dot, and text whose first line break does not fit into the 255 bytes.
   */
  lemma ReservedExactlyWhen(name: Text)
    ensures var w := Strip(Windows, name);
            IsReserved(Sanitize(Windows, name)) <==> SpacedDevice(w) || LongDevice(w)
  {
    hide Strip, Cleaned, IsReserved, OnlyDots, TrimEnd, Truncate, SpacedDevice, LongDevice;
    var w := Strip(Windows, name);
    CleanedOf(name);
    NothingReserved();
    NothingKept();
    if SpacedDevice(w) || LongDevice(w) {
      SpacedIsNotDots(w);
      BecomesReserved(w);
    }
    if !OnlyDots(w) && !IsReserved(w) && IsReserved(Finalize(TrimEnd(w))) {
      WasSpacedOrLong(w);
    }
  }

  lemma NothingKept()
    ensures Finalize([]) == EMPTY_NAME
  {
  }

  // ----- concrete names -----

  /** "con ." comes out as "con". */
  lemma ReservedNameSurvives()
    ensures Sanitize(Windows, [99, 111, 110, SPACE, DOT]) == [99, 111, 110] && IsReserved([99, 111, 110])
  {
    hide Strip, Cleaned, IsReserved, TrimEnd, Truncate;
    var w: Text := [99, 111, 110, SPACE, DOT];
    StripPlain(w);
    CleanedOf(w);
    assert w[..3] == [99, 111, 110] && w[0] != DOT;
    ConIsDevice();
    SpacedNotReserved(w, 3);
    SpacedBecomesReserved(w, 3);
  }

  /** "con." followed by 251 letters and a line separator is cut to a reserved name. */
  lemma LongReservedName(letters: Text)
    requires |letters| == 251 && forall i :: 0 <= i < |letters| ==> letters[i] == 97
    ensures IsReserved(Sanitize(Windows, [99, 111, 110, DOT] + letters + [0x2028]))
  {
    hide Strip, IsReserved, Sanitize, IsDeviceName, Utf8.Encode;
    var front := [99, 111, 110, DOT] + letters;
    var w: Text := front + [0x2028];
    assert forall i :: 4 <= i < 255 ==> front[i] == letters[i - 4];
    assert w[..255] == front && w[..256] == w && w[255] == 0x2028;
    StripPlain(w);
    ConIsDevice();
    assert w[..3] == [99, 111, 110];
    AsciiPrefix(w, 255);
    Utf8.EncodeJoin(front, [0x2028]);
    OneBreakLong();
    assert LongDeviceAt(w, 3, 255);
    ReservedExactlyWhen(w);
  }

  lemma ConIsDevice()
    ensures IsDeviceName([99, 111, 110])
  {
    assert LowerAscii([99, 111, 110]) == [99, 111, 110];
  }

  lemma OneBreakLong()
    ensures ByteLength([0x2028]) > 0
  {
    assert Utf8.Encode([0x2028]) == Utf8.EncodePoint(0x2028) + Utf8.Encode([]);
  }

  /** 254 letters, a dot and one more letter come out ending in the dot. */
  lemma LongNameEndsInDot(letters: Text)
    requires |letters| == 254 && forall i :: 0 <= i < |letters| ==> letters[i] == 97
    ensures Sanitize(Windows, letters + [DOT, 97]) == letters + [DOT]
  {
    hide Strip, Truncate, TrimEnd, IsReserved;
    var w := letters + [DOT, 97];
    assert forall i :: 0 <= i < 254 ==> w[i] == letters[i];
    StripPlain(w);
    CleanedOf(w);
    assert w[0] == letters[0] == 97;
    PlainNotReserved(w, letters);
    assert w[255] == 97 && w[..256] == w;
    TrimEndExactly(w, 256);
    assert w[..255] == letters + [DOT];
    AsciiPrefix(w, 255);
    AsciiPrefix(w, 256);
    assert IsCut(w, MAX_FILENAME_BYTES, 255);
    CutIsTruncation(w, MAX_FILENAME_BYTES, 255);
  }

  lemma PlainNotReserved(w: Text, letters: Text)
    requires |letters| == 254 && w == letters + [DOT, 97] && forall i :: 0 <= i < |letters| ==> letters[i] == 97
    ensures !IsReserved(w)
  {
    hide IsDeviceName;
    if IsDeviceName(w) {
      DeviceShape(w);
    }
    assert forall k :: 0 <= k < 254 ==> w[k] == letters[k];
    forall k: nat | k < |w| && w[k] == DOT && IsDeviceName(w[..k])
      ensures false
    {
      DeviceShape(w[..k]);
    }
  }
}
