/** The rules for local file names, character by character, and that every name is made by them. */
module FilenameRules {
  import opened Bytes
  import opened FilenameSanitizer
  import opened FilenameTheorems
  import W = WindowsNames
  import Utf8

  // ----- cutting -----

  /** The first `k` units end between characters: not between a high and a low surrogate. */
  predicate Whole(t: Text, k: nat) {
    k <= |t| && (0 < k < |t| ==> !(0xd800 <= t[k - 1] <= 0xdbff && 0xdc00 <= t[k] <= 0xdfff))
  }

  /** The longest part in front with whole characters that is at most `limit` bytes of UTF-8. */
  ghost predicate IsLongest(t: Text, limit: nat, r: Text) {
    && r <= t && Whole(t, |r|) && ByteLength(r) <= limit
    && forall k :: |r| < k <= |t| && Whole(t, k) ==> ByteLength(t[..k]) > limit
  }

  lemma {:induction false} BoundaryIsWhole(t: Text, k: nat)
    ensures Boundary(t, k) <==> Whole(t, k)
    decreases |t|
  {
    if k > 0 && t != [] {
      var w := Utf8.FirstWidth(t);
      if w <= k {
        BoundaryIsWhole(t[w..], k - w);
      }
    }
  }

  lemma CutIs(t: Text, limit: nat)
    ensures IsLongest(t, limit, Truncate(t, limit))
  {
    hide Boundary, Truncate, ByteLength, Whole;
    TruncateIsLongest(t, limit);
    var r := Truncate(t, limit);
    BoundaryIsWhole(t, |r|);
    forall k | |r| < k <= |t| && Whole(t, k)
      ensures ByteLength(t[..k]) > limit
    {
      BoundaryIsWhole(t, k);
    }
  }

  // ----- characters that are removed -----

  predicate Dropped(p: Platform, u: CodeUnit) {
    || u <= 0x1f || 0x80 <= u <= 0x9f || u == '/' as int
    || (!p.Posix? && u == ':' as int)
    || (p.Windows? && exists i :: 0 <= i < 7 && u == "?<>\\*|\""[i] as int)
  }

  lemma DroppedIs(p: Platform, u: CodeUnit)
    ensures Dropped(p, u) <==> Removed(p, u)
  {
    var s := "?<>\\*|\"";
    assert s[0] == '?' && s[1] == '<' && s[2] == '>' && s[3] == '\\' && s[4] == '*' && s[5] == '|' && s[6] == '"';
  }

  predicate Places(p: Platform, t: Text, s: Text, ix: seq<nat>) {
    |ix| == |s| && forall k :: 0 <= k < |ix| ==> ix[k] < |t| && s[k] == t[ix[k]] && !Dropped(p, t[ix[k]])
  }

  predicate Rising(ix: seq<nat>) {
    forall j, k :: 0 <= j < k < |ix| ==> ix[j] < ix[k]
  }

  predicate AllFrom(p: Platform, t: Text, ix: seq<nat>, from: nat) {
    forall i :: from <= i < |t| && !Dropped(p, t[i]) ==> i in ix
  }

  /** `s` is `t` without the characters that are dropped: `ix` lists the places of the others, in order. */
  predicate Picks(p: Platform, t: Text, s: Text, ix: seq<nat>) {
    Places(p, t, s, ix) && Rising(ix) && AllFrom(p, t, ix, 0)
  }

  /** Exactly the dropped characters are gone, and the others stay in order. */
  lemma {:induction false} OthersStay(p: Platform, t: Text) returns (ix: seq<nat>)
    ensures Picks(p, t, Strip(p, t), ix)
  {
    hide Dropped, Removed, Places, Rising, AllFrom;
    if t == [] {
      ix := [];
      NothingPicked(p, t);
    } else {
      var rest := OthersStay(p, t[1..]);
      DroppedIs(p, t[0]);
      ix := if Dropped(p, t[0]) then Later(rest) else [0] + Later(rest);
      PicksLater(p, t, Strip(p, t[1..]), rest);
      assert [] + Strip(p, t[1..]) == Strip(p, t[1..]);
      if !Dropped(p, t[0]) {
        PicksFirst(p, t, Strip(p, t[1..]), Later(rest));
      }
    }
  }

  function Later(ix: seq<nat>): (r: seq<nat>)
    ensures |r| == |ix| && forall k :: 0 <= k < |r| ==> r[k] == ix[k] + 1
  {
    seq(|ix|, k requires 0 <= k < |ix| => ix[k] + 1)
  }

  lemma NothingPicked(p: Platform, t: Text)
    requires t == []
    ensures Picks(p, t, [], [])
  {
  }

  lemma PicksLater(p: Platform, t: Text, s: Text, rest: seq<nat>)
    requires t != [] && Picks(p, t[1..], s, rest)
    ensures Places(p, t, s, Later(rest)) && Rising([0] + Later(rest)) && Rising(Later(rest))
    ensures AllFrom(p, t, Later(rest), 1) && (Dropped(p, t[0]) ==> AllFrom(p, t, Later(rest), 0))
  {
    hide Dropped, AllFrom;
    RisingLater(rest);
    AllLater(p, t, rest);
    forall k | 0 <= k < |rest|
      ensures rest[k] + 1 < |t| && s[k] == t[rest[k] + 1] && !Dropped(p, t[rest[k] + 1])
    {
      assert t[1..][rest[k]] == t[rest[k] + 1];
    }
  }

  lemma RisingLater(rest: seq<nat>)
    requires Rising(rest)
    ensures Rising([0] + Later(rest)) && Rising(Later(rest))
  {
  }

  lemma AllLater(p: Platform, t: Text, rest: seq<nat>)
    requires t != [] && AllFrom(p, t[1..], rest, 0)
    ensures AllFrom(p, t, Later(rest), 1) && (Dropped(p, t[0]) ==> AllFrom(p, t, Later(rest), 0))
  {
    hide Dropped;
    var ix := Later(rest);
    forall i | 0 < i < |t| && !Dropped(p, t[i])
      ensures i in ix
    {
      assert t[1..][i - 1] == t[i];
      var k :| 0 <= k < |rest| && rest[k] == i - 1;
      assert ix[k] == i;
    }
  }

  lemma PicksFirst(p: Platform, t: Text, s: Text, ix: seq<nat>)
    requires t != [] && Places(p, t, s, ix) && AllFrom(p, t, ix, 1) && !Dropped(p, t[0])
    ensures Places(p, t, [t[0]] + s, [0] + ix) && AllFrom(p, t, [0] + ix, 0)
  {
    hide Dropped;
    var jx := [0] + ix;
    assert jx[0] == 0 && forall k :: 0 < k < |jx| ==> jx[k] == ix[k - 1];
  }

  // ----- reserved names -----

  /** A letter of either case. */
  predicate SameLetter(u: CodeUnit, c: char) {
    u == c as int || ('a' <= c <= 'z' && u == c as int - 32)
  }

  predicate SameLetters(t: Text, s: string) {
    |t| == |s| && forall i :: 0 <= i < |t| ==> SameLetter(t[i], s[i])
  }

  predicate Device(t: Text) {
    || SameLetters(t, "con") || SameLetters(t, "prn") || SameLetters(t, "aux") || SameLetters(t, "nul")
    || (|t| == 4 && (SameLetters(t[..3], "com") || SameLetters(t[..3], "lpt")) && '0' as int <= t[3] <= '9' as int)
  }

  /** A device, or a device, a dot, and anything on the same line. */
  predicate ReservedName(t: Text) {
    Device(t) || exists k :: 0 <= k < |t| && DeviceBefore(t, k)
  }

  predicate DeviceBefore(t: Text, k: nat) {
    k < |t| && t[k] == '.' as int && Device(t[..k])
    && forall i :: k < i < |t| ==> t[i] != 10 && t[i] != 13 && t[i] != 0x2028 && t[i] != 0x2029
  }

  lemma ThreeLetters(t: Text, a: char, b: char, c: char)
    requires 'a' <= a <= 'z' && 'a' <= b <= 'z' && 'a' <= c <= 'z'
    ensures SameLetters(t, [a, b, c]) <==> LowerAscii(t) == [a as int, b as int, c as int]
  {
    if |t| == 3 {
      var l := LowerAscii(t);
      assert l == [l[0], l[1], l[2]];
      assert l[0] == Lower(t[0]) && l[1] == Lower(t[1]) && l[2] == Lower(t[2]);
    }
  }

  lemma DeviceIs(t: Text)
    ensures Device(t) <==> IsDeviceName(t)
  {
    hide SameLetters, LowerAscii;
    ThreeLetters(t, 'c', 'o', 'n');
    ThreeLetters(t, 'p', 'r', 'n');
    ThreeLetters(t, 'a', 'u', 'x');
    ThreeLetters(t, 'n', 'u', 'l');
    if |t| == 4 {
      ThreeLetters(t[..3], 'c', 'o', 'm');
      ThreeLetters(t[..3], 'l', 'p', 't');
      LowerFront(t);
    }
    assert ['c', 'o', 'n'] == "con" && ['p', 'r', 'n'] == "prn" && ['a', 'u', 'x'] == "aux" && ['n', 'u', 'l'] == "nul";
    assert ['c', 'o', 'm'] == "com" && ['l', 'p', 't'] == "lpt";
    assert |LowerAscii(t)| == |t|;
  }

  lemma LowerFront(t: Text)
    requires |t| == 4
    ensures LowerAscii(t)[..3] == LowerAscii(t[..3]) && (48 <= LowerAscii(t)[3] <= 57 <==> 48 <= t[3] <= 57)
  {
  }

  lemma ReservedIs(t: Text)
    ensures ReservedName(t) <==> IsReserved(t)
  {
    hide Device, IsDeviceName;
    DeviceIs(t);
    if ReservedName(t) && !Device(t) {
      var k: nat :| k < |t| && DeviceBefore(t, k);
      DeviceIs(t[..k]);
    }
    if IsReserved(t) && !IsDeviceName(t) {
      var k :| 0 <= k < |t| && t[k] == DOT && IsDeviceName(t[..k]) && forall i :: k < i < |t| ==> !IsLineBreak(t[i]);
      DeviceIs(t[..k]);
      assert DeviceBefore(t, k);
    }
  }

  // ----- sanitising -----

  /** Nothing, or nothing but dots. */
  predicate Blank(t: Text) {
    forall i :: 0 <= i < |t| ==> t[i] == '.' as int
  }

  /** `w` is `t` without the dots and spaces at its end. */
  predicate Trimmed(t: Text, w: Text) {
    && w <= t && (forall i :: |w| <= i < |t| ==> t[i] == '.' as int || t[i] == ' ' as int)
    && (w != [] ==> w[|w| - 1] != '.' as int && w[|w| - 1] != ' ' as int)
  }

  lemma TrimmedIs(t: Text)
    ensures Trimmed(t, TrimEnd(t))
  {
    hide TrimEnd;
    W.TrimEndDrops(t);
    TrimEndPrefix(t);
  }

  lemma CutToLimit(t: Text)
    ensures if t == [] then Finalize(t) == ['_' as int] else IsLongest(t, 255, Finalize(t))
  {
    hide Truncate, IsLongest;
    CutIs(t, 255);
    if t == [] {
      W.NothingKept();
    } else {
      W.SomethingKept(t, 255);
    }
  }

  /**
   * Every name is made by the rules: of the characters that stay, those within 255 bytes; an underscore when
   * none stay but dots; and on Windows without trailing dots and spaces, with an underscore for a device name.
   */
  lemma SanitizedByTheRules(p: Platform, name: Text)
    ensures var s, r := Strip(p, name), Sanitize(p, name);
            if Blank(s) || (p.Windows? && ReservedName(s)) then r == ['_' as int]
            else if !p.Windows? then IsLongest(s, 255, r)
            else exists w :: Trimmed(s, w) && if w == [] then r == ['_' as int] else IsLongest(w, 255, r)
  {
    hide Strip, Truncate, TrimEnd, IsReserved, ReservedName, IsLongest, Trimmed, Finalize;
    var s := Strip(p, name);
    ReservedIs(s);
    CutToLimit([]);
    CutToLimit(s);
    W.TrimEndNothing();
    W.NothingReserved();
    TrimmedIs(s);
    CutToLimit(TrimEnd(s));
  }

  // ----- suffixes -----

  /** The name in front of its last dot, and from there on; a dot in front of everything does not count. */
  predicate Parted(name: Text, base: Text, ext: Text) {
    && name == base + ext
    && (if ext == [] then forall i :: 0 < i < |name| ==> name[i] != '.' as int
        else base != [] && ext[0] == '.' as int && forall i :: 0 < i < |ext| ==> ext[i] != '.' as int)
  }

  lemma {:induction false} LastDotIs(t: Text)
    ensures forall i :: LastDot(t) < i < |t| ==> t[i] != '.' as int
  {
    if t != [] && t[|t| - 1] != DOT {
      LastDotIs(t[..|t| - 1]);
    }
  }

  lemma PartedIs(name: Text)
    ensures Parted(name, Base(name), Extension(name))
  {
    LastDotIs(name);
    var k := LastDot(name);
    if k > 0 {
      var ext := name[k..];
      assert forall i :: 0 < i < |ext| ==> ext[i] == name[k + i];
    } else {
      assert name + [] == name;
    }
  }

  /** What is left of the base when the suffix, its underscore and the extension have their room. */
  ghost predicate BaseKept(base: Text, suffix: Text, ext: Text, kept: Text) {
    var room := 255 - 1 - ByteLength(suffix) as int - ByteLength(ext) as int;
    if room > 0 && (exists b :: b != [] && IsLongest(base, room, b)) then kept != [] && IsLongest(base, room, kept)
    else kept == ['_' as int]
  }

  lemma BaseKeptIs(name: Text, suffix: Text)
    ensures BaseKept(Base(name), suffix, Extension(name), KeptBase(name, suffix))
  {
    hide ByteLength, Truncate, LastDot, IsLongest;
    assert ByteLength([UNDERSCORE] + suffix) == 1 + ByteLength(suffix) by {
      UnderscoreFront(suffix);
    }
    var base := Base(name);
    var room := 255 - 1 - ByteLength(suffix) as int - ByteLength(Extension(name)) as int;
    if room > 0 {
      CutIs(base, room);
      forall b | IsLongest(base, room, b)
        ensures b == Truncate(base, room)
      {
        OneLongest(base, room, b, Truncate(base, room));
      }
    }
  }

  lemma OneLongest(t: Text, limit: nat, a: Text, b: Text)
    requires IsLongest(t, limit, a) && IsLongest(t, limit, b)
    ensures a == b
  {
    hide ByteLength;
    assert t[..|a|] == a && t[..|b|] == b;
  }

  /** A unique suffix goes behind an underscore, in front of the extension; the base makes room for both. */
  lemma SuffixedByTheRules(name: Text, suffix: Text)
    ensures exists base: Text, ext: Text, kept: Text :: Parted(name, base, ext) && BaseKept(base, suffix, ext, kept)
                && IsLongest(kept + (['_' as int] + suffix) + ext, 255, AppendUniqueSuffix(name, suffix))
  {
    hide Parted, BaseKept, IsLongest, Truncate, KeptBase, Base, Extension, Finalize;
    var base, ext, kept := Base(name), Extension(name), KeptBase(name, suffix);
    PartedIs(name);
    BaseKeptIs(name, suffix);
    CutToLimit(kept + (['_' as int] + suffix) + ext);
  }
}
