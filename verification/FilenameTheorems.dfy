/** What truncation, sanitising and suffixes promise of a local file name. */
module FilenameTheorems {
  import opened Bytes
  import opened Wrappers
  import opened FilenameSanitizer
  import Utf8

  /** `k` is a code-point boundary of `t`. */
  predicate Boundary(t: Text, k: nat) {
    k == 0 || (t != [] && Utf8.FirstWidth(t) <= k && Boundary(t[Utf8.FirstWidth(t)..], k - Utf8.FirstWidth(t)))
  }

  lemma {:induction false} BoundaryWithin(t: Text, k: nat)
    requires Boundary(t, k)
    ensures k <= |t|
    decreases |t|
  {
    if k > 0 {
      BoundaryWithin(t[Utf8.FirstWidth(t)..], k - Utf8.FirstWidth(t));
    }
  }

  /** A prefix that ends at a boundary begins with the same code point. */
  lemma PrefixFirst(t: Text, k: nat)
    requires k > 0 && Boundary(t, k) && k <= |t|
    ensures t[..k] != [] && Utf8.FirstWidth(t[..k]) == Utf8.FirstWidth(t)
            && Utf8.FirstPoint(t[..k]) == Utf8.FirstPoint(t)
    ensures t[..k][Utf8.FirstWidth(t)..] == t[Utf8.FirstWidth(t)..][..k - Utf8.FirstWidth(t)]
  {
  }

  /** Truncation stops at a code-point boundary, within the limit. */
  lemma {:induction false} TruncateFits(t: Text, limit: nat)
    ensures var r := Truncate(t, limit); r <= t && Boundary(t, |r|) && ByteLength(r) <= limit
    decreases |t|
  {
    hide Utf8.EncodePoint, Utf8.FirstPoint, Utf8.FirstWidth;
    if t != [] {
      var w, size := Utf8.FirstWidth(t), |Utf8.EncodePoint(Utf8.FirstPoint(t))|;
      if size <= limit {
        var q := Truncate(t[w..], limit - size);
        TruncateFits(t[w..], limit - size);
        assert t[..w + |q|] == t[..w] + q && t[w..][..|q|] == q;
        PrefixBytes(t, w + |q|);
      }
    }
  }

  /** No longer prefix would do. */
  lemma {:induction false} TruncateMaximal(t: Text, limit: nat, k: nat)
    requires k <= |t| && Boundary(t, k) && ByteLength(t[..k]) <= limit
    ensures k <= |Truncate(t, limit)|
    decreases |t|
  {
    hide Utf8.EncodePoint, Utf8.FirstPoint, Utf8.FirstWidth;
    if k > 0 {
      var w := Utf8.FirstWidth(t);
      PrefixBytes(t, k);
      TruncateMaximal(t[w..], limit - |Utf8.EncodePoint(Utf8.FirstPoint(t))|, k - w);
    }
  }

  /**
   * Truncation returns the longest prefix that ends at a code-point boundary and is within the limit:
   * it is such a prefix, and no such prefix is longer.
   */
  lemma TruncateIsLongest(t: Text, limit: nat)
    ensures var r := Truncate(t, limit);
            r <= t && Boundary(t, |r|) && ByteLength(r) <= limit
            && forall k :: 0 <= k <= |t| && Boundary(t, k) && ByteLength(t[..k]) <= limit ==> k <= |r|
  {
    TruncateFits(t, limit);
    forall k | 0 <= k <= |t| && Boundary(t, k) && ByteLength(t[..k]) <= limit
      ensures k <= |Truncate(t, limit)|
    {
      TruncateMaximal(t, limit, k);
    }
  }

  /** The length of a prefix that ends at a boundary, code point by code point. */
  lemma PrefixBytes(t: Text, k: nat)
    requires k > 0 && Boundary(t, k) && k <= |t|
    ensures var w := Utf8.FirstWidth(t);
            w <= k && ByteLength(t[..k]) == |Utf8.EncodePoint(Utf8.FirstPoint(t))| + ByteLength(t[w..][..k - w])
  {
    hide Utf8.EncodePoint, Utf8.FirstPoint, Utf8.FirstWidth;
    PrefixFirst(t, k);
  }

  lemma TruncateShort(t: Text, limit: nat)
    requires ByteLength(t) <= limit
    ensures Truncate(t, limit) == t
  {
    TruncateIsLongest(t, limit);
    WholeBoundary(t);
    assert t[..|t|] == t;
  }

  lemma {:induction false} WholeBoundary(t: Text)
    ensures Boundary(t, |t|)
    decreases |t|
  {
    if t != [] {
      WholeBoundary(t[Utf8.FirstWidth(t)..]);
    }
  }

  // ----- every name is usable -----

  predicate Usable(t: Text) {
    t != [] && ByteLength(t) <= 255
  }

  lemma FinalizeUsable(t: Text)
    ensures Usable(Finalize(t))
  {
    TruncateIsLongest(t, MAX_FILENAME_BYTES);
    OneUnderscore();
  }

  lemma OneUnderscore()
    ensures ByteLength([UNDERSCORE]) == 1
  {
    Utf8.EncodeAscii([UNDERSCORE]);
  }

  lemma {:induction false} StripLeaves(p: Platform, t: Text)
    ensures forall u :: u in Strip(p, t) ==> !Removed(p, u)
  {
    if t != [] {
      StripLeaves(p, t[1..]);
    }
  }

  lemma {:induction false} TrimEndPrefix(t: Text)
    ensures TrimEnd(t) <= t
    ensures TrimEnd(t) != [] ==> TrimEnd(t)[|TrimEnd(t)| - 1] != DOT && TrimEnd(t)[|TrimEnd(t)| - 1] != SPACE
  {
    if t != [] && (t[|t| - 1] == DOT || t[|t| - 1] == SPACE) {
      TrimEndPrefix(t[..|t| - 1]);
    }
  }

  lemma CleanedLeaves(p: Platform, name: Text)
    ensures forall u :: u in Cleaned(p, name) ==> !Removed(p, u)
    ensures !OnlyDots(Cleaned(p, name))
    ensures p.Windows? && Cleaned(p, name) != [] ==>
              var c := Cleaned(p, name); c[|c| - 1] != DOT && c[|c| - 1] != SPACE
  {
    hide IsReserved, Removed, Strip;
    StripLeaves(p, name);
    var stripped := Strip(p, name);
    var named := if OnlyDots(stripped) then [] else stripped;
    TrimEndPrefix(named);
    TrimEndPrefix([]);
    var c := Cleaned(p, name);
    assert c <= stripped;
    forall u | u in c
      ensures !Removed(p, u)
    {
      var i :| 0 <= i < |c| && c[i] == u;
      assert stripped[i] == u;
    }
  }

  /**
   * Every sanitised name is non-empty, at most 255 bytes, free of the platform's separators and control
   * characters, and neither "." nor "..".
   */
  lemma SanitizeIsUsable(p: Platform, name: Text)
    ensures var r := Sanitize(p, name);
            && Usable(r) && (forall u :: u in r ==> !Removed(p, u)) && r != [DOT] && r != [DOT, DOT]
  {
    hide Cleaned;
    var c := Cleaned(p, name);
    FinalizeUsable(c);
    CleanedLeaves(p, name);
    TruncateIsLongest(c, MAX_FILENAME_BYTES);
    var r := Truncate(c, MAX_FILENAME_BYTES);
    forall u | u in r
      ensures !Removed(p, u)
    {
      var i :| 0 <= i < |r| && r[i] == u;
      assert c[i] == u;
    }
    if r == [DOT] || r == [DOT, DOT] {
      ShortIsWhole(c);
    }
  }

  /** Two bytes are far from the limit: nothing was cut off. */
  lemma ShortIsWhole(c: Text)
    requires |Truncate(c, MAX_FILENAME_BYTES)| <= 2
    ensures Truncate(c, MAX_FILENAME_BYTES) == c
  {
    hide Utf8.EncodePoint, Utf8.FirstPoint, Utf8.FirstWidth;
    if c != [] {
      var w, room := Utf8.FirstWidth(c), MAX_FILENAME_BYTES - |Utf8.EncodePoint(Utf8.FirstPoint(c))|;
      PointSize(c);
      var d := c[w..];
      assert Truncate(c, MAX_FILENAME_BYTES) == c[..w] + Truncate(d, room);
      if d != [] {
        var v := Utf8.FirstWidth(d);
        PointSize(d);
        var left := room - |Utf8.EncodePoint(Utf8.FirstPoint(d))|;
        assert Truncate(d, room) == d[..v] + Truncate(d[v..], left);
        TruncateNothing(d[v..], left);
        assert d == d[..v] + d[v..];
      }
      assert c == c[..w] + d;
    }
  }

  lemma TruncateNothing(t: Text, limit: nat)
    requires limit >= 4 && Truncate(t, limit) == []
    ensures t == []
  {
    if t != [] {
      PointSize(t);
    }
  }

  lemma PointSize(t: Text)
    requires t != []
    ensures 1 <= |Utf8.EncodePoint(Utf8.FirstPoint(t))| <= 4
  {
  }

  // ----- the suffix is kept whole -----

  /** A prefix within the limit survives truncation. */
  lemma {:induction false} TruncateKeeps(a: Text, b: Text, limit: nat)
    requires (b == [] || !Utf8.IsLow(b[0])) && ByteLength(a) <= limit
    ensures Truncate(a + b, limit) == a + Truncate(b, limit - ByteLength(a))
    decreases |a|
  {
    hide Truncate, Utf8.EncodePoint, Utf8.FirstPoint, Utf8.FirstWidth;
    if a == [] {
      assert a + b == b && [] + Truncate(b, limit) == Truncate(b, limit);
    } else {
      var w, size := Utf8.FirstWidth(a), |Utf8.EncodePoint(Utf8.FirstPoint(a))|;
      Utf8.JoinFirst(a, b);
      assert ByteLength(a) == size + ByteLength(a[w..]);
      TruncateStep([], a + b, limit);
      TruncateKeeps(a[w..], b, limit - size);
      SplitJoin(a, w, Truncate(b, limit - ByteLength(a)));
    }
  }

  lemma SplitJoin(a: Text, w: nat, c: Text)
    requires w <= |a|
    ensures [] + a[..w] + (a[w..] + c) == a + c
  {
  }

  lemma UnderscoreFront(suffix: Text)
    ensures ByteLength([UNDERSCORE] + suffix) == 1 + ByteLength(suffix)
  {
    var t := [UNDERSCORE] + suffix;
    assert Utf8.FirstWidth(t) == 1 && t[1..] == suffix;
  }

  /**
   * The whole suffix is kept: the result is a non-empty base, the underscore, the suffix, and then as much
   * of the extension as fits; the extension is cut only when it leaves no room for a base.
   */
  lemma SuffixKept(name: Text, suffix: Text)
    requires ByteLength(suffix) <= MAX_FILENAME_BYTES - 2
    ensures var b := KeptBase(name, suffix);
            && b != [] && (b == EMPTY_NAME || b <= Base(name))
            && exists e :: e <= Extension(name) && AppendUniqueSuffix(name, suffix) == b + ([UNDERSCORE] + suffix) + e
                           && (ByteLength(Extension(name)) + ByteLength(suffix) + 2 <= MAX_FILENAME_BYTES
                               ==> e == Extension(name))
    ensures Usable(AppendUniqueSuffix(name, suffix))
  {
    hide Utf8.Encode, Truncate, LastDot;
    var x := [UNDERSCORE] + suffix;
    var ext := Extension(name);
    var b := KeptBase(name, suffix);
    UnderscoreFront(suffix);
    OneUnderscore();
    var room := MAX_FILENAME_BYTES as int - (ByteLength(x) + ByteLength(ext));
    if room > 0 {
      TruncateIsLongest(Base(name), room);
    }
    assert ByteLength(b) <= if room > 0 then room else 1;
    Utf8.EncodeJoin(b, x);
    assert ByteLength(b + x) == ByteLength(b) + ByteLength(x) <= MAX_FILENAME_BYTES;
    TruncateKeeps(b + x, ext, MAX_FILENAME_BYTES);
    var left := MAX_FILENAME_BYTES - ByteLength(b + x);
    var e := Truncate(ext, left);
    TruncateIsLongest(ext, left);
    if ByteLength(ext) <= left {
      TruncateShort(ext, left);
    }
    assert AppendUniqueSuffix(name, suffix) == b + x + e;
    FinalizeUsable(b + x + ext);
  }
}
