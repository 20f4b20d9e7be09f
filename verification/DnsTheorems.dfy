/** DNS names: decoding undoes encoding, at any offset and through pointers. */
module DnsTheorems {
  import opened Bytes
  import opened Wrappers
  import opened DnsFormat
  import Utf8
  import R = XpcRoundTrip

  function SanitizedAll(labels: seq<Text>): (r: seq<Text>)
    ensures |r| == |labels| && forall i :: 0 <= i < |r| ==> r[i] == Utf8.Sanitized(labels[i])
  {
    seq(|labels|, i requires 0 <= i < |labels| => Utf8.Sanitized(labels[i]))
  }

  lemma EncodedEmpty(t: Text)
    ensures Utf8.Encode(t) == [] <==> t == []
  {
    if t != [] {
      assert |Utf8.EncodePoint(Utf8.FirstPoint(t))| >= 1;
    }
  }

  lemma LabelAt(data: Bytes, at: nat, part: Text, budget: nat)
    requires part != [] && EncodeLabel(part).Ok? && R.At(data, at, EncodeLabel(part).value)
    ensures Walk(data, at, budget + 1) ==
            match Walk(data, at + |EncodeLabel(part).value|, budget)
            case Err(e) => Err(e)
            case Ok(w) => Ok(w.(labels := [Utf8.Sanitized(part)] + w.labels))
  {
    hide R.At, Utf8.Encode, Utf8.Decode, Utf8.Sanitized;
    var b := Utf8.Encode(part);
    EncodedEmpty(part);
    R.AtSplit(data, at, [|b|], b);
    R.SliceAt(data, at, [|b|]);
    R.SliceAt(data, at + 1, b);
    assert data[at] == data[at..at + 1][0] == |b|;
    Utf8.DecodeEncode(part);
  }

  lemma LabelsSplit(labels: seq<Text>)
    requires labels != [] && EncodeLabels(labels).Ok?
    ensures var n := |labels| - 1;
            && EncodeLabels(labels[..n]).Ok? && EncodeLabel(labels[n]).Ok?
            && EncodeLabels(labels).value == EncodeLabels(labels[..n]).value + EncodeLabel(labels[n]).value
  {
  }

  /** Walking over encoded labels costs one turn each and gives them back, lone surrogates replaced. */
  lemma {:induction false} LabelsAt(data: Bytes, at: nat, labels: seq<Text>, budget: nat)
    requires EncodeLabels(labels).Ok? && R.At(data, at, EncodeLabels(labels).value)
    requires forall l :: l in labels ==> l != []
    ensures Walk(data, at, |labels| + budget) ==
            match Walk(data, at + |EncodeLabels(labels).value|, budget)
            case Err(e) => Err(e)
            case Ok(w) => Ok(w.(labels := SanitizedAll(labels) + w.labels))
    decreases |labels|
  {
    hide R.At, Walk, EncodeLabel, Utf8.Sanitized;
    if labels == [] {
      var w := Walk(data, at, budget);
      if w.Ok? {
        assert SanitizedAll(labels) + w.value.labels == w.value.labels;
      }
    } else {
      var n := |labels| - 1;
      var init, last := labels[..n], labels[n];
      LabelsSplit(labels);
      R.AtSplit(data, at, EncodeLabels(init).value, EncodeLabel(last).value);
      assert forall l :: l in init ==> l in labels;
      LabelsAt(data, at, init, budget + 1);
      assert last in labels;
      LabelAt(data, at + |EncodeLabels(init).value|, last, budget);
      var w := Walk(data, at + |EncodeLabels(labels).value|, budget);
      if w.Ok? {
        assert SanitizedAll(labels) == SanitizedAll(init) + [Utf8.Sanitized(last)];
        assert SanitizedAll(init) + ([Utf8.Sanitized(last)] + w.value.labels) == SanitizedAll(labels) + w.value.labels;
      }
    }
  }

  // ----- names without pointers -----

  lemma TerminatorAt(data: Bytes, at: nat, budget: nat)
    requires budget > 0 && R.At(data, at, [0])
    ensures Walk(data, at, budget) == Ok(Walked([], at + 1, None))
  {
    assert data[at] == data[at..at + 1][0] == 0;
  }

  /** A name of at most 127 non-empty labels, anywhere in a packet, decodes to those labels and its end. */
  lemma NameAt(data: Bytes, at: nat, labels: seq<Text>)
    requires EncodeLabels(labels).Ok? && R.At(data, at, EncodeLabels(labels).value + [0])
    requires |labels| < DECODE_LOOP_LIMIT && forall l :: l in labels ==> l != []
    ensures DecodeName(data, at)
            == Ok(Decoded(Join(SanitizedAll(labels)) + [DOT], at + |EncodeLabels(labels).value| + 1))
  {
    hide R.At, EncodeLabels, Join, SanitizedAll, Walk;
    var e := EncodeLabels(labels).value;
    R.AtSplit(data, at, e, [0]);
    TerminatorAt(data, at + |e|, DECODE_LOOP_LIMIT - |labels|);
    LabelsAt(data, at, labels, DECODE_LOOP_LIMIT - |labels|);
    assert SanitizedAll(labels) + [] == SanitizedAll(labels);
  }

  lemma {:induction false} SplitParts(t: Text)
    ensures forall l :: l in Split(t) ==> DOT !in l
    ensures Join(Split(t)) == t
  {
    if t != [] {
      SplitParts(t[1..]);
      var r := Split(t[1..]);
      assert r[0] in r;
      var s := Split(t);
      if t[0] == DOT {
        assert s == [[]] + r && s[1..] == r && s[0] == [];
        assert Join(s) == [] + [DOT] + Join(r);
        assert t == [DOT] + t[1..];
      } else {
        JoinHead(t[0], r);
        assert t == [t[0]] + t[1..];
      }
    }
  }

  lemma JoinHead(u: CodeUnit, r: seq<Text>)
    requires r != []
    ensures Join([[u] + r[0]] + r[1..]) == [u] + Join(r)
  {
    var s := [[u] + r[0]] + r[1..];
    if |r| == 1 {
      assert s == [[u] + r[0]];
    } else {
      assert s[1..] == r[1..];
      assert Join(s) == ([u] + r[0]) + [DOT] + Join(r[1..]);
    }
  }

  /** Decoding what was encoded keeps the length of the text: each replaced character is one for one. */
  lemma {:induction false} JoinLength(a: seq<Text>, b: seq<Text>)
    requires |a| == |b| && forall i :: 0 <= i < |a| ==> |a[i]| == |b[i]|
    ensures |Join(a)| == |Join(b)|
    ensures Join(a) == Join(b) <==> a == b
  {
    if |a| == 1 {
      assert a == [a[0]] && b == [b[0]];
    } else if |a| > 1 {
      JoinLength(a[1..], b[1..]);
      var x, y := a[0] + [DOT], b[0] + [DOT];
      assert Join(a) == x + Join(a[1..]) && Join(b) == y + Join(b[1..]);
      if Join(a) == Join(b) {
        assert Join(a)[..|x|] == x && Join(b)[..|y|] == y;
        assert x[..|a[0]|] == a[0] && y[..|b[0]|] == b[0];
        assert Join(a)[|x|..] == Join(a[1..]) && Join(b)[|y|..] == Join(b[1..]);
        assert a == [a[0]] + a[1..] && b == [b[0]] + b[1..];
      }
    }
  }

  /** Fewer labels join to a shorter text. */
  lemma {:induction false} JoinShorter(labels: seq<Text>, k: nat)
    requires k < |labels|
    ensures |Join(labels[..k])| <= |Join(labels)| && (|labels| > 1 ==> |Join(labels[..k])| < |Join(labels)|)
    decreases |labels|
  {
    if k == 0 {
      assert labels[..0] == [];
    } else {
      JoinShorter(labels[1..], k - 1);
      assert labels[..k][1..] == labels[1..][..k - 1];
      if |labels| > 2 {
      } else {
        assert k == 1 && labels[..1] == [labels[0]];
      }
    }
  }

  /** At most 127 labels, none empty, none with a lone surrogate. */
  predicate Faithful(labels: seq<Text>) {
    |labels| < DECODE_LOOP_LIMIT && forall l :: l in labels ==> l != [] && Utf8.NoLoneSurrogate(l)
  }

  /** Length of the leading labels the decoder can read: up to the first empty one, and at most 128. */
  function Readable(labels: seq<Text>): (k: nat)
    ensures k <= |labels| && k <= DECODE_LOOP_LIMIT
    ensures forall j :: 0 <= j < k ==> labels[j] != []
    ensures k < |labels| && k < DECODE_LOOP_LIMIT ==> labels[k] == []
  {
    ReadableFrom(labels, 0)
  }

  function ReadableFrom(labels: seq<Text>, i: nat): (k: nat)
    requires i <= |labels| && i <= DECODE_LOOP_LIMIT && forall j :: 0 <= j < i ==> labels[j] != []
    ensures i <= k <= |labels| && k <= DECODE_LOOP_LIMIT
    ensures forall j :: 0 <= j < k ==> labels[j] != []
    ensures k < |labels| && k < DECODE_LOOP_LIMIT ==> labels[k] == []
    decreases |labels| - i
  {
    if i < |labels| && i < DECODE_LOOP_LIMIT && labels[i] != [] then
      ReadableFrom(labels, i + 1)
    else i
  }

  lemma {:induction false} LabelsPrefix(labels: seq<Text>, k: nat)
    requires k <= |labels| && EncodeLabels(labels).Ok?
    ensures EncodeLabels(labels[..k]).Ok? && EncodeLabels(labels[..k]).value <= EncodeLabels(labels).value
    ensures k < |labels| ==>
              && EncodeLabel(labels[k]).Ok?
              && EncodeLabels(labels[..k]).value + EncodeLabel(labels[k]).value <= EncodeLabels(labels).value
    decreases |labels|
  {
    hide EncodeLabel;
    if k == |labels| {
      assert labels[..k] == labels;
    } else {
      var n := |labels| - 1;
      if k < n {
        LabelsPrefix(labels[..n], k);
        assert labels[..n][..k] == labels[..k];
      }
    }
  }

  /** What decoding an encoded name gives, in every case. */
  lemma DecodeEncoded(name: Text)
    requires EncodeName(name).Ok?
    ensures var labels := LabelsOf(name); var k := Readable(labels);
            && EncodeLabels(labels[..k]).Ok?
            && DecodeName(EncodeName(name).value, 0)
               == Ok(Decoded(Join(SanitizedAll(labels[..k])) + [DOT],
                             |EncodeLabels(labels[..k]).value| + (if k < DECODE_LOOP_LIMIT then 1 else 0)))
  {
    hide R.At, EncodeLabels, EncodeLabel, Join, SanitizedAll, LabelsOf, Readable, Walk;
    var labels := LabelsOf(name);
    var k := Readable(labels);
    var data := EncodeName(name).value;
    LabelsPrefix(labels, k);
    var e := EncodeLabels(labels[..k]).value;
    PrefixAt(data, e);
    LabelsAt(data, 0, labels[..k], DECODE_LOOP_LIMIT - k);
    assert SanitizedAll(labels[..k]) + [] == SanitizedAll(labels[..k]);
    if k < DECODE_LOOP_LIMIT {
      if k < |labels| {
        EmptyLabel(labels[k]);
      } else {
        assert labels[..k] == labels;
      }
      assert e + [0] <= data;
      PrefixAt(data, e + [0]);
      R.AtSplit(data, 0, e, [0]);
      TerminatorAt(data, |e|, DECODE_LOOP_LIMIT - k);
    } else {
      NoTurns(data, |e|);
    }
  }

  lemma PrefixAt(data: Bytes, e: Bytes)
    requires e <= data
    ensures R.At(data, 0, e)
  {
  }

  lemma NoTurns(data: Bytes, at: nat)
    ensures Walk(data, at, 0) == Ok(Walked([], at, None))
  {
  }

  lemma EmptyLabel(part: Text)
    requires part == []
    ensures EncodeLabel(part) == Ok([0])
  {
    assert Utf8.Encode(part) == [] && [0] + [] == [0];
  }

  /**
   * Decoding an encoded name gives the name back, and its whole length, exactly when it has at most 127
   * labels, none of them empty and none with a lone surrogate.
   */
  lemma RoundTripExactlyWhen(name: Text)
    requires EncodeName(name).Ok?
    ensures DecodeName(EncodeName(name).value, 0) == Ok(Decoded(Trimmed(name) + [DOT], |EncodeName(name).value|))
            <==> Faithful(LabelsOf(name))
  {
    hide EncodeLabels, Join, DecodeName, Split, Readable, SanitizedAll;
    var labels := LabelsOf(name);
    var k := Readable(labels);
    DecodeEncoded(name);
    NameIsJoined(name);
    LabelsPrefix(labels, k);
    var kept := SanitizedAll(labels[..k]);
    SanitizedLengths(labels[..k]);
    JoinLength(kept, labels[..k]);
    LastDot(Join(kept), Trimmed(name));
    if k < |labels| {
      JoinShorter(labels, k);
      NotAllReadable(labels, k);
      if |labels| == 1 {
        OneLabel(name);
      }
    } else {
      assert labels[..k] == labels;
      SameWhenSane(labels);
    }
  }

  lemma LastDot(a: Text, b: Text)
    ensures a + [DOT] == b + [DOT] <==> a == b
  {
    if a + [DOT] == b + [DOT] {
      assert (a + [DOT])[..|a|] == a && (b + [DOT])[..|b|] == b;
    }
  }

  lemma NameIsJoined(name: Text)
    ensures Join(LabelsOf(name)) == Trimmed(name)
  {
    SplitParts(Trimmed(name));
  }

  /** A name of one label has a label that is not empty. */
  lemma OneLabel(name: Text)
    requires |LabelsOf(name)| == 1
    ensures LabelsOf(name)[0] != []
  {
    SplitParts(Trimmed(name));
  }

  lemma NotAllReadable(labels: seq<Text>, k: nat)
    requires k < |labels| && (k < DECODE_LOOP_LIMIT ==> labels[k] == []) && k <= DECODE_LOOP_LIMIT
    ensures !Faithful(labels)
  {
    if k < DECODE_LOOP_LIMIT {
      assert labels[k] in labels;
    }
  }

  lemma SanitizedLengths(labels: seq<Text>)
    ensures forall i :: 0 <= i < |labels| ==> |SanitizedAll(labels)[i]| == |labels[i]|
  {
    forall i | 0 <= i < |labels|
      ensures |SanitizedAll(labels)[i]| == |labels[i]|
    {
      Utf8.SanitizedExactlyWhen(labels[i]);
    }
  }

  lemma SameWhenSane(labels: seq<Text>)
    ensures SanitizedAll(labels) == labels <==> forall l :: l in labels ==> Utf8.NoLoneSurrogate(l)
  {
    forall i | 0 <= i < |labels|
      ensures SanitizedAll(labels)[i] == labels[i] <==> Utf8.NoLoneSurrogate(labels[i])
    {
      Utf8.SanitizedExactlyWhen(labels[i]);
    }
    if forall l :: l in labels ==> Utf8.NoLoneSurrogate(l) {
      forall i | 0 <= i < |labels|
        ensures SanitizedAll(labels)[i] == labels[i]
      {
        assert labels[i] in labels;
      }
      assert SanitizedAll(labels) == labels;
    }
    if SanitizedAll(labels) == labels {
      forall l | l in labels
        ensures Utf8.NoLoneSurrogate(l)
      {
        var i :| 0 <= i < |labels| && labels[i] == l;
      }
    }
  }

  // ----- compression -----

  /** The walk from `at` reaches a terminator within `steps` turns. */
  predicate Ends(data: Bytes, at: nat, steps: nat)
    decreases steps
  {
    && steps > 0 && at < |data|
    && if data[at] == 0 then true
       else if data[at] >= COMPRESSION_PREFIX then
         at + 1 < |data| && Ends(data, PointerTarget(data[at], data[at + 1]), steps - 1)
       else data[at] <= MAX_LABEL_OCTETS && at + 1 + data[at] <= |data| && Ends(data, at + 1 + data[at], steps - 1)
  }

  /** A walk that ends does not depend on the turns to spare. */
  lemma {:induction false} SpareTurns(data: Bytes, at: nat, steps: nat, budget: nat)
    requires Ends(data, at, steps) && steps <= budget
    ensures Walk(data, at, budget).Ok? && Walk(data, at, budget) == Walk(data, at, steps)
    decreases steps
  {
    hide Utf8.Decode;
    if data[at] == 0 {
    } else if data[at] >= COMPRESSION_PREFIX {
      SpareTurns(data, PointerTarget(data[at], data[at + 1]), steps - 1, budget - 1);
    } else {
      SpareTurns(data, at + 1 + data[at], steps - 1, budget - 1);
    }
  }

  /** The two octets of a pointer. */
  function PointerBytes(target: nat): Bytes
    requires target < 0x4000
  {
    [COMPRESSION_PREFIX + target / 0x100, target % 0x100]
  }

  /**
   * A compressed name: labels, then a pointer.  When the chain ends within 128 turns the name is the
   * labels before the pointer followed by the name at its target, and the offset returned is two past
   * the first pointer, however many pointers follow.
   */
  lemma CompressedName(data: Bytes, at: nat, labels: seq<Text>, target: nat, steps: nat)
    requires EncodeLabels(labels).Ok? && target < 0x4000
    requires R.At(data, at, EncodeLabels(labels).value + PointerBytes(target))
    requires forall l :: l in labels ==> l != []
    requires Ends(data, target, steps) && |labels| + 1 + steps <= DECODE_LOOP_LIMIT
    ensures Walk(data, target, steps).Ok?
    ensures DecodeName(data, at)
            == Ok(Decoded(Join(SanitizedAll(labels) + Walk(data, target, steps).value.labels) + [DOT],
                          at + |EncodeLabels(labels).value| + 2))
    ensures DecodeName(data, target).Ok?
    ensures DecodeName(data, target).value.name == Join(Walk(data, target, steps).value.labels) + [DOT]
  {
    hide R.At, EncodeLabels, Join, SanitizedAll, Ends;
    var e := EncodeLabels(labels).value;
    R.AtSplit(data, at, e, PointerBytes(target));
    var p := at + |e|;
    PointerAt(data, p, target);
    LabelsAt(data, at, labels, DECODE_LOOP_LIMIT - |labels|);
    EndsInside(data, target, steps);
    SpareTurns(data, target, steps, DECODE_LOOP_LIMIT - |labels| - 1);
    SpareTurns(data, target, steps, DECODE_LOOP_LIMIT);
    var w := Walk(data, target, steps).value;
    FollowPointer(data, p, target, DECODE_LOOP_LIMIT - |labels|);
  }

  lemma EndsInside(data: Bytes, at: nat, steps: nat)
    requires Ends(data, at, steps)
    ensures at < |data|
  {
  }

  lemma PointerAt(data: Bytes, p: nat, target: nat)
    requires target < 0x4000 && R.At(data, p, PointerBytes(target))
    ensures p + 1 < |data| && data[p] >= COMPRESSION_PREFIX && PointerTarget(data[p], data[p + 1]) == target
  {
    assert data[p..p + 2][0] == data[p] && data[p..p + 2][1] == data[p + 1];
  }

  lemma FollowPointer(data: Bytes, p: nat, target: nat, budget: nat)
    requires p + 1 < |data| && data[p] >= COMPRESSION_PREFIX && PointerTarget(data[p], data[p + 1]) == target
    requires budget > 0 && target < |data| && Walk(data, target, budget - 1).Ok?
    ensures Walk(data, p, budget) == Ok(Walk(data, target, budget - 1).value.(afterPointer := Some(p + 2)))
  {
  }

  // ----- chains that do not end -----

  /** One more turn can be made at `at`: a pointer into the packet, or a label that fits. */
  predicate CanTurn(data: Bytes, at: nat) {
    && at < |data| && data[at] != 0
    && if data[at] >= COMPRESSION_PREFIX then at + 1 < |data| && PointerTarget(data[at], data[at + 1]) < |data|
       else data[at] <= MAX_LABEL_OCTETS && at + 1 + data[at] <= |data|
  }

  function TurnTo(data: Bytes, at: nat): nat
    requires CanTurn(data, at)
  {
    if data[at] >= COMPRESSION_PREFIX then PointerTarget(data[at], data[at + 1]) else at + 1 + data[at]
  }

  function TurnLabels(data: Bytes, at: nat): seq<Text>
    requires CanTurn(data, at)
  {
    if data[at] >= COMPRESSION_PREFIX then [] else [Utf8.Decode(data[at + 1..at + 1 + data[at]])]
  }

  /** `n` turns can be made from `at` without meeting a terminator. */
  predicate Goes(data: Bytes, at: nat, n: nat)
    decreases n
  {
    n == 0 || (CanTurn(data, at) && Goes(data, TurnTo(data, at), n - 1))
  }

  /** Where `n` turns lead. */
  function Gone(data: Bytes, at: nat, n: nat): nat
    requires Goes(data, at, n)
    decreases n
  {
    if n == 0 then at else Gone(data, TurnTo(data, at), n - 1)
  }

  /** The labels passed on the way. */
  function Passed(data: Bytes, at: nat, n: nat): seq<Text>
    requires Goes(data, at, n)
    decreases n
  {
    if n == 0 then [] else TurnLabels(data, at) + Passed(data, TurnTo(data, at), n - 1)
  }

  lemma OneTurn(data: Bytes, at: nat, budget: nat)
    requires CanTurn(data, at) && budget > 0
    ensures var rest := Walk(data, TurnTo(data, at), budget - 1);
            && (Walk(data, at, budget).Ok? <==> rest.Ok?)
            && (rest.Ok? ==> Walk(data, at, budget).value.labels == TurnLabels(data, at) + rest.value.labels
                             && Walk(data, at, budget).value.stop == rest.value.stop)
  {
    hide Utf8.Decode;
    var rest := Walk(data, TurnTo(data, at), budget - 1);
    if rest.Ok? {
      assert [] + rest.value.labels == rest.value.labels;
    }
  }

  lemma NoTurn(data: Bytes, at: nat, budget: nat)
    requires !CanTurn(data, at) && budget > 0
    ensures Walk(data, at, budget).Ok? <==> at >= |data| || data[at] == 0
    ensures Ends(data, at, budget) <==> at < |data| && data[at] == 0
  {
    if Ends(data, at, budget) && data[at] >= COMPRESSION_PREFIX {
      EndsInside(data, PointerTarget(data[at], data[at + 1]), budget - 1);
    }
  }

  /** Turns first, then the rest of the walk with the turns that are left. */
  lemma {:induction false} WalkAfter(data: Bytes, at: nat, n: nat, budget: nat)
    requires n <= budget && Goes(data, at, n)
    ensures var whole, rest := Walk(data, at, budget), Walk(data, Gone(data, at, n), budget - n);
            && (whole.Ok? <==> rest.Ok?)
            && (rest.Ok? ==>
                  whole.value.labels == Passed(data, at, n) + rest.value.labels && whole.value.stop == rest.value.stop)
    decreases n
  {
    hide Walk, CanTurn, TurnTo, TurnLabels;
    if n == 0 {
      var w := Walk(data, at, budget);
      if w.Ok? {
        assert [] + w.value.labels == w.value.labels;
      }
    } else {
      OneTurn(data, at, budget);
      WalkAfter(data, TurnTo(data, at), n - 1, budget - 1);
      var rest := Walk(data, Gone(data, at, n), budget - n);
      if rest.Ok? {
        var t, p := TurnLabels(data, at), Passed(data, TurnTo(data, at), n - 1);
        assert t + (p + rest.value.labels) == (t + p) + rest.value.labels;
      }
    }
  }

  /** After `n` turns the packet is at its end, or a terminator stands there. */
  predicate Rests(data: Bytes, at: nat, n: nat) {
    Goes(data, at, n) && (Gone(data, at, n) >= |data| || data[Gone(data, at, n)] == 0)
  }

  predicate Terminates(data: Bytes, at: nat, n: nat) {
    Goes(data, at, n) && Gone(data, at, n) < |data| && data[Gone(data, at, n)] == 0
  }

  lemma TurnFirst(data: Bytes, at: nat, n: nat)
    requires n > 0
    ensures Rests(data, at, n) <==> CanTurn(data, at) && Rests(data, TurnTo(data, at), n - 1)
    ensures Terminates(data, at, n) <==> CanTurn(data, at) && Terminates(data, TurnTo(data, at), n - 1)
  {
    hide CanTurn, TurnTo;
  }

  /**
   * Every walk: it returns exactly when it makes all its turns, or stops before at a terminator or at the
   * end of the packet; and `Ends` says exactly that it stops at a terminator.
   */
  lemma {:induction false} WalkExactlyWhen(data: Bytes, at: nat, budget: nat)
    ensures Walk(data, at, budget).Ok?
            <==> Goes(data, at, budget) || exists n: nat :: n < budget && Rests(data, at, n)
    ensures Ends(data, at, budget) <==> exists n: nat :: n < budget && Terminates(data, at, n)
    decreases budget
  {
    hide Walk, Ends, CanTurn, TurnTo, Rests, Terminates;
    if budget == 0 {
      NoBudget(data, at);
    } else if CanTurn(data, at) {
      var to := TurnTo(data, at);
      OneTurn(data, at, budget);
      WalkExactlyWhen(data, to, budget - 1);
      EndsTurn(data, at, budget);
      StepsApart(data, at, budget);
    } else {
      NoTurn(data, at, budget);
      StandsStill(data, at);
    }
  }

  lemma NoBudget(data: Bytes, at: nat)
    ensures Walk(data, at, 0).Ok? && !Ends(data, at, 0)
  {
  }

  lemma EndsTurn(data: Bytes, at: nat, budget: nat)
    requires CanTurn(data, at) && budget > 0
    ensures Ends(data, at, budget) <==> Ends(data, TurnTo(data, at), budget - 1)
  {
  }

  lemma StandsStill(data: Bytes, at: nat)
    requires !CanTurn(data, at)
    ensures forall n: nat :: n > 0 ==> !Goes(data, at, n) && !Rests(data, at, n) && !Terminates(data, at, n)
    ensures Rests(data, at, 0) <==> at >= |data| || data[at] == 0
    ensures Terminates(data, at, 0) <==> at < |data| && data[at] == 0
  {
  }

  /** Stopping after some turns from `at` is stopping after one fewer behind the first. */
  lemma StepsApart(data: Bytes, at: nat, budget: nat)
    requires CanTurn(data, at) && budget > 0
    ensures var to := TurnTo(data, at);
            && ((exists n: nat :: n < budget && Rests(data, at, n))
                <==> exists n: nat :: n < budget - 1 && Rests(data, to, n))
            && ((exists n: nat :: n < budget && Terminates(data, at, n))
                <==> exists n: nat :: n < budget - 1 && Terminates(data, to, n))
  {
    hide TurnTo, Rests, Terminates;
    var to := TurnTo(data, at);
    MovesOn(data, at);
    forall n: nat | n < budget && n > 0
      ensures Rests(data, at, n) <==> Rests(data, to, n - 1)
      ensures Terminates(data, at, n) <==> Terminates(data, to, n - 1)
    {
      TurnFirst(data, at, n);
    }
    forall n: nat | n < budget - 1
      ensures Rests(data, at, n + 1) <==> Rests(data, to, n)
      ensures Terminates(data, at, n + 1) <==> Terminates(data, to, n)
    {
      TurnFirst(data, at, n + 1);
    }
  }

  lemma MovesOn(data: Bytes, at: nat)
    requires CanTurn(data, at)
    ensures !Rests(data, at, 0) && !Terminates(data, at, 0)
  {
  }

  /** A walk that makes all its turns returns the labels passed. */
  lemma UsedUp(data: Bytes, at: nat, n: nat)
    requires Goes(data, at, n)
    ensures Walk(data, at, n).Ok? && Walk(data, at, n).value.labels == Passed(data, at, n)
  {
    hide Goes, Gone, Passed;
    NoBudget(data, Gone(data, at, n));
    WalkAfter(data, at, n, n);
    assert Passed(data, at, n) + [] == Passed(data, at, n);
  }

  /**
   * A name whose pointer leads into a chain that uses up the 128 turns: no error, the labels passed until
   * then, and still the offset two past the first pointer.
   */
  lemma UnendingName(data: Bytes, at: nat, labels: seq<Text>, target: nat)
    requires EncodeLabels(labels).Ok? && target < 0x4000 && |labels| < DECODE_LOOP_LIMIT
    requires R.At(data, at, EncodeLabels(labels).value + PointerBytes(target))
    requires forall l :: l in labels ==> l != []
    requires target < |data| && Goes(data, target, DECODE_LOOP_LIMIT - |labels| - 1)
    ensures DecodeName(data, at)
            == Ok(Decoded(Join(SanitizedAll(labels) + Passed(data, target, DECODE_LOOP_LIMIT - |labels| - 1)) + [DOT],
                          at + |EncodeLabels(labels).value| + 2))
  {
    hide R.At, EncodeLabels, Join, SanitizedAll, Goes, Passed, Walk, PointerBytes;
    var e := EncodeLabels(labels).value;
    var left := DECODE_LOOP_LIMIT - |labels| - 1;
    R.AtSplit(data, at, e, PointerBytes(target));
    PointerAt(data, at + |e|, target);
    LabelsAt(data, at, labels, left + 1);
    UsedUp(data, target, left);
    FollowPointer(data, at + |e|, target, left + 1);
  }

  /** A pointer to itself goes round until the turns are used up, and passes no label. */
  lemma {:induction false} SelfPointerGoes(data: Bytes, p: nat, n: nat)
    requires p < 0x4000 && R.At(data, p, PointerBytes(p))
    ensures p < |data| && Goes(data, p, n) && Passed(data, p, n) == []
  {
    PointerAt(data, p, p);
    if n > 0 {
      SelfPointerGoes(data, p, n - 1);
    }
  }

  /** So a name that ends in a pointer to itself decodes to its labels. */
  lemma SelfPointer(data: Bytes, at: nat, labels: seq<Text>)
    requires EncodeLabels(labels).Ok? && |labels| < DECODE_LOOP_LIMIT && forall l :: l in labels ==> l != []
    requires var p := at + |EncodeLabels(labels).value|;
             p < 0x4000 && R.At(data, at, EncodeLabels(labels).value + PointerBytes(p))
    ensures DecodeName(data, at)
            == Ok(Decoded(Join(SanitizedAll(labels)) + [DOT], at + |EncodeLabels(labels).value| + 2))
  {
    hide R.At, EncodeLabels, Join, SanitizedAll, Goes, Passed;
    var e := EncodeLabels(labels).value;
    var p := at + |e|;
    R.AtSplit(data, at, e, PointerBytes(p));
    SelfPointerGoes(data, p, DECODE_LOOP_LIMIT - |labels| - 1);
    UnendingName(data, at, labels, p);
    assert SanitizedAll(labels) + [] == SanitizedAll(labels);
  }
}
