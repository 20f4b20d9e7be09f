/** Local file names for pulled files: sanitising, truncation to 255 UTF-8 bytes, suffixes, and allocation. */
module FilenameSanitizer {
  import opened Bytes
  import opened Wrappers
  import Utf8

  const MAX_FILENAME_BYTES: nat := 255
  const UNDERSCORE: CodeUnit := 95
  const DOT: CodeUnit := 46
  const SPACE: CodeUnit := 32
  const SLASH: CodeUnit := 47
  const COLON: CodeUnit := 58

  /** `EMPTY_SANITIZED_FILENAME`. */
  const EMPTY_NAME: Text := [UNDERSCORE]

  datatype Platform = Windows | Darwin | Posix

  // ----- truncation -----

  function ByteLength(t: Text): nat {
    |Utf8.Encode(t)|
  }

  /** Whole code points while they fit. */
  function Truncate(t: Text, limit: nat): Text {
    if t == [] then []
    else
      var w, size := Utf8.FirstWidth(t), |Utf8.EncodePoint(Utf8.FirstPoint(t))|;
      if size > limit then [] else t[..w] + Truncate(t[w..], limit - size)
  }

  // ----- sanitising -----

  predicate IsControl(u: CodeUnit) {
    u <= 0x1f || 0x80 <= u <= 0x9f
  }

  /** `/ ? < > \ : * | "`. */
  predicate IsWindowsIllegal(u: CodeUnit) {
    u == SLASH || u == 63 || u == 60 || u == 62 || u == 92 || u == COLON || u == 42 || u == 124 || u == 34
  }

  /** Characters the platform removes wherever they stand. */
  predicate Removed(p: Platform, u: CodeUnit) {
    IsControl(u) ||
    match p
    case Windows => IsWindowsIllegal(u)
    case Darwin => u == SLASH || u == COLON
    case Posix => u == SLASH
  }

  function Strip(p: Platform, t: Text): Text {
    if t == [] then [] else (if Removed(p, t[0]) then [] else [t[0]]) + Strip(p, t[1..])
  }

  predicate OnlyDots(t: Text) {
    t != [] && forall i :: 0 <= i < |t| ==> t[i] == DOT
  }

  function Lower(u: CodeUnit): CodeUnit {
    if 65 <= u <= 90 then u + 32 else u
  }

  function LowerAscii(t: Text): (r: Text)
    ensures |r| == |t|
  {
    seq(|t|, i requires 0 <= i < |t| => Lower(t[i]))
  }

  /** con, prn, aux, nul, and com or lpt with a digit. */
  predicate IsDeviceName(t: Text) {
    var l := LowerAscii(t);
    l == [99, 111, 110] || l == [112, 114, 110] || l == [97, 117, 120] || l == [110, 117, 108]
    || (|l| == 4 && (l[..3] == [99, 111, 109] || l[..3] == [108, 112, 116]) && 48 <= l[3] <= 57)
  }

  /** What `.` in a regular expression does not match. */
  predicate IsLineBreak(u: CodeUnit) {
    u == 10 || u == 13 || u == 0x2028 || u == 0x2029
  }

  /** A device name, alone or before an extension on the same line. */
  predicate IsReserved(t: Text) {
    IsDeviceName(t)
    || exists k :: 0 <= k < |t| && t[k] == DOT && IsDeviceName(t[..k]) && forall i :: k < i < |t| ==> !IsLineBreak(t[i])
  }

  function TrimEnd(t: Text): Text {
    if t != [] && (t[|t| - 1] == DOT || t[|t| - 1] == SPACE) then TrimEnd(t[..|t| - 1]) else t
  }

  function Finalize(t: Text): Text {
    var r := Truncate(t, MAX_FILENAME_BYTES);
    if r == [] then EMPTY_NAME else r
  }

  /** The name before the final truncation. */
  function Cleaned(p: Platform, name: Text): Text {
    var stripped := Strip(p, name);
    var named := if OnlyDots(stripped) then [] else stripped;
    if p.Windows? then TrimEnd(if IsReserved(named) then [] else named) else named
  }

  function Sanitize(p: Platform, name: Text): Text {
    Finalize(Cleaned(p, name))
  }

  // ----- suffixes -----

  function LastDot(t: Text): (i: int)
    ensures -1 <= i < |t| && (i >= 0 ==> t[i] == DOT)
  {
    if t == [] then -1 else if t[|t| - 1] == DOT then |t| - 1 else LastDot(t[..|t| - 1])
  }

  function Base(name: Text): Text {
    if LastDot(name) > 0 then name[..LastDot(name)] else name
  }

  function Extension(name: Text): Text {
    if LastDot(name) > 0 then name[LastDot(name)..] else []
  }

  /** The part of the base that is kept in front of the suffix. */
  function KeptBase(name: Text, suffix: Text): Text {
    var room := MAX_FILENAME_BYTES as int - (ByteLength([UNDERSCORE] + suffix) + ByteLength(Extension(name)));
    var kept := if room > 0 then Truncate(Base(name), room) else EMPTY_NAME;
    if kept == [] then EMPTY_NAME else kept
  }

  function AppendUniqueSuffix(name: Text, suffix: Text): Text {
    Finalize(KeptBase(name, suffix) + ([UNDERSCORE] + suffix) + Extension(name))
  }

  // ----- the loops -----

  method TruncateUtf8Bytes(input: Text, limit: nat) returns (r: Text)
    ensures r == Truncate(input, limit)
  {
    hide Truncate, Utf8.EncodePoint, Utf8.FirstPoint, Utf8.FirstWidth;
    var total := 0;
    var i := 0;
    while i < |input|
      invariant 0 <= i <= |input| && total <= limit
      invariant Truncate(input, limit) == input[..i] + Truncate(input[i..], limit - total)
    {
      ghost var front, rest := input[..i], input[i..];
      TruncateStep(front, rest, limit - total);
      var w := Utf8.FirstWidth(input[i..]);
      var segmentBytes := |Utf8.EncodePoint(Utf8.FirstPoint(input[i..]))|;
      Advance(input, i, w);
      total := total + segmentBytes;
      if total == limit {
        NoRoom(rest[w..]);
        return input[..i + w];
      }
      if total > limit {
        return input[..i];
      }
      i := i + w;
    }
    TruncateEmpty(input[i..], limit - total);
    assert input[..i] + [] == input;
    r := input;
  }

  lemma Advance(t: Text, i: nat, w: nat)
    requires i + w <= |t|
    ensures t[..i] + t[i..][..w] == t[..i + w] && t[i..][w..] == t[i + w..]
  {
  }

  lemma TruncateEmpty(t: Text, limit: nat)
    requires t == []
    ensures Truncate(t, limit) == []
  {
  }

  /** One turn of the loop: the next code point joins the front, or the front is the result. */
  lemma TruncateStep(front: Text, t: Text, limit: nat)
    requires t != []
    ensures var w, size := Utf8.FirstWidth(t), |Utf8.EncodePoint(Utf8.FirstPoint(t))|;
            front + Truncate(t, limit) == if size > limit then front
                else (front + t[..w]) + Truncate(t[w..], limit - size)
  {
    hide Utf8.EncodePoint, Utf8.FirstPoint, Utf8.FirstWidth;
  }

  lemma NoRoom(t: Text)
    ensures Truncate(t, 0) == []
  {
  }

  method ReplaceTrailingDotsAndSpaces(input: Text) returns (r: Text)
    ensures r == TrimEnd(input)
  {
    var end: nat := |input|;
    assert input[..end] == input;
    while end > 0 && (input[end - 1] == DOT || input[end - 1] == SPACE)
      invariant end <= |input| && TrimEnd(input) == TrimEnd(input[..end])
    {
      assert input[..end][..end - 1] == input[..end - 1];
      end := end - 1;
    }
    r := input[..end];
  }
}

module NameAllocation {
  import opened Bytes
  import opened Wrappers
  import opened FilenameSanitizer

  const MAX_ATTEMPTS: nat := 100

  type Dir = nat

  /** The host: its platform, `toLowerCase`, and whether a directory tells case apart. */
  datatype Host = Host(platform: Platform, lower: Text -> Text, caseSensitive: Dir -> bool, overwrite: bool)

  datatype State = State(used: map<Dir, set<Text>>, cases: map<Dir, bool>)

  const INITIAL := State(map[], map[])

  /** The case rule of a directory: remembered, or asked for. */
  function CaseRule(h: Host, s: State, d: Dir): bool {
    if d in s.cases then s.cases[d] else h.caseSensitive(d)
  }

  predicate Collide(h: Host, sensitive: bool, a: Text, b: Text) {
    if sensitive then a == b else h.lower(a) == h.lower(b)
  }

  function UsedIn(s: State, d: Dir): set<Text> {
    if d in s.used then s.used[d] else {}
  }

  predicate UsedInPull(h: Host, s: State, d: Dir, name: Text) {
    exists x :: x in UsedIn(s, d) && Collide(h, CaseRule(h, s, d), x, name)
  }

  /** Comparing with a used name remembers the directory's case rule. */
  function Asked(h: Host, s: State, d: Dir): State {
    if UsedIn(s, d) != {} then s.(cases := s.cases[d := CaseRule(h, s, d)]) else s
  }

  function Register(s: State, d: Dir, name: Text): State {
    s.(used := s.used[d := UsedIn(s, d) + {name}])
  }

  function Candidate(h: Host, remote: Text, suffixes: nat -> Text, attempt: nat): Text {
    var sanitized := Sanitize(h.platform, remote);
    if attempt == 0 then sanitized else AppendUniqueSuffix(sanitized, suffixes(attempt))
  }

  /** The attempts from number `attempt` on; `onDisk(i)` says whether the i-th candidate exists. */
  function Attempts(h: Host, s: State, d: Dir, remote: Text, suffixes: nat -> Text, onDisk: nat -> bool, attempt: nat)
    : (State, Option<Text>)
    decreases MAX_ATTEMPTS - attempt
  {
    if attempt >= MAX_ATTEMPTS then (s, None)
    else
      var name := Candidate(h, remote, suffixes, attempt);
      var t := Asked(h, s, d);
      if UsedInPull(h, s, d, name) || (!h.overwrite && onDisk(attempt)) then
        Attempts(h, t, d, remote, suffixes, onDisk, attempt + 1)
      else (Register(t, d, name), Some(name))
  }

  function Allocate(h: Host, s: State, d: Dir, remote: Text, suffixes: nat -> Text, onDisk: nat -> bool)
    : (State, Option<Text>)
  {
    Attempts(h, s, d, remote, suffixes, onDisk, 0)
  }
}

module PullLocalNameAllocator {
  import opened Bytes
  import opened Wrappers
  import opened FilenameSanitizer
  import opened NameAllocation

  class PullLocalNameAllocator {
    const host: Host
    var usedByDir: map<Dir, set<Text>>
    var caseSensitiveByDir: map<Dir, bool>

    ghost function Current(): State
      reads this
    {
      State(usedByDir, caseSensitiveByDir)
    }

    constructor (h: Host)
      ensures host == h && Current() == INITIAL
    {
      host := h;
      usedByDir, caseSensitiveByDir := map[], map[];
    }

    method Allocate(dir: Dir, remote: Text, suffixes: nat -> Text, onDisk: nat -> bool) returns (r: Option<Text>)
      modifies this
      ensures (Current(), r) == NameAllocation.Allocate(host, old(Current()), dir, remote, suffixes, onDisk)
    {
      hide Candidate;
      var attempt := 0;
      while attempt < MAX_ATTEMPTS
        invariant attempt <= MAX_ATTEMPTS
        invariant Attempts(host, Current(), dir, remote, suffixes, onDisk, attempt)
                  == NameAllocation.Allocate(host, old(Current()), dir, remote, suffixes, onDisk)
      {
        var name := Candidate(host, remote, suffixes, attempt);
        var clash := IsUsedInPull(dir, name);
        if !clash && !host.overwrite {
          clash := onDisk(attempt);
        }
        if !clash {
          var before := if dir in usedByDir then usedByDir[dir] else {};
          usedByDir := usedByDir[dir := before + {name}];
          return Some(name);
        }
        attempt := attempt + 1;
      }
      r := None;
    }

    /** Walks the used names until one collides. */
    method IsUsedInPull(dir: Dir, name: Text) returns (used: bool)
      modifies this`caseSensitiveByDir
      ensures used == UsedInPull(host, old(Current()), dir, name)
      ensures Current() == Asked(host, old(Current()), dir)
    {
      if dir !in usedByDir {
        return false;
      }
      var todo := usedByDir[dir];
      ghost var rule := CaseRule(host, Current(), dir);
      used := false;
      while todo != {}
        invariant todo <= usedByDir[dir]
        invariant Current() == old(Current()) || Current() == Asked(host, old(Current()), dir)
        invariant todo != usedByDir[dir] ==> Current() == Asked(host, old(Current()), dir)
        invariant CaseRule(host, Current(), dir) == rule
        invariant forall x :: x in usedByDir[dir] - todo ==> !Collide(host, rule, x, name)
        decreases todo
      {
        var existing :| existing in todo;
        var sensitive := IsCaseSensitiveForDir(dir);
        if Collide(host, sensitive, existing, name) {
          return true;
        }
        todo := todo - {existing};
      }
    }

    method IsCaseSensitiveForDir(dir: Dir) returns (b: bool)
      modifies this`caseSensitiveByDir
      ensures b == CaseRule(host, old(Current()), dir)
      ensures caseSensitiveByDir == old(caseSensitiveByDir)[dir := b]
    {
      if dir !in caseSensitiveByDir {
        b := host.caseSensitive(dir);
        caseSensitiveByDir := caseSensitiveByDir[dir := b];
      } else {
        b := caseSensitiveByDir[dir];
      }
    }
  }
}
