/** The bytes of DNS names, and the walk over any packet, octet by octet. */
module DnsWire {
  import opened Bytes
  import opened Wrappers
  import opened DnsFormat
  import T = DnsTheorems
  import Utf8

  // ----- what is written -----

  /** The labels of a name stand between its dots; one dot at the end is no separator. */
  predicate AreLabels(labels: seq<Text>, name: Text) {
    && (forall l, i :: l in labels && 0 <= i < |l| ==> l[i] != '.' as int)
    && (name == Dotted(labels) || name == Dotted(labels) + ['.' as int])
    && (labels == [] ==> name == [] || name == ['.' as int])
  }

  function Dotted(labels: seq<Text>): Text {
    if labels == [] then []
    else if |labels| == 1 then labels[0]
    else Dotted(labels[..|labels| - 1]) + ['.' as int] + labels[|labels| - 1]
  }

  /** Each label is an octet for its length, at most 63, and its UTF-8; a zero octet ends the name. */
  ghost predicate IsName(d: Bytes, labels: seq<Text>) {
    if labels == [] then d == [0]
    else
      var b := Utf8.Encode(labels[0]);
      |b| <= 63 && |d| > |b| && d[0] == |b| && d[1..1 + |b|] == b && IsName(d[1 + |b|..], labels[1..])
  }

  lemma {:induction false} SplitFree(t: Text)
    ensures forall l, i :: l in Split(t) && 0 <= i < |l| ==> l[i] != '.' as int
  {
    if t != [] {
      SplitFree(t[1..]);
      var r := Split(t[1..]);
      forall l, i | l in Split(t) && 0 <= i < |l|
        ensures l[i] != '.' as int
      {
        if l !in r && l != [] {
          assert l == [t[0]] + r[0];
        }
      }
    }
  }

  lemma {:induction false} JoinDotted(labels: seq<Text>)
    ensures Join(labels) == Dotted(labels)
    decreases |labels|
  {
    if |labels| > 2 {
      var init, rest, last := labels[..|labels| - 1], labels[1..], labels[|labels| - 1];
      JoinDotted(rest);
      JoinDotted(init);
      JoinDotted(init[1..]);
      assert rest[..|rest| - 1] == init[1..];
      assert Join(init) == labels[0] + [DOT] + Join(init[1..]);
    } else if |labels| == 2 {
      assert labels[1..] == [labels[1]] && labels[..1] == [labels[0]];
    }
  }

  lemma LabelsAre(name: Text)
    ensures AreLabels(LabelsOf(name), name)
  {
    hide Join, Dotted, Split;
    SplitFree(Trimmed(name));
    T.NameIsJoined(name);
    JoinDotted(LabelsOf(name));
    if name != Trimmed(name) {
      assert name == Trimmed(name) + [DOT];
    }
    if LabelsOf(name) == [] {
      NoLabels();
    }
  }

  lemma NoLabels()
    ensures Dotted([]) == []
  {
  }

  /** One label in front. */
  lemma {:induction false} LabelsFront(labels: seq<Text>)
    requires labels != []
    ensures EncodeLabels(labels).Ok? <==> EncodeLabel(labels[0]).Ok? && EncodeLabels(labels[1..]).Ok?
    ensures EncodeLabels(labels).Ok? ==>
              EncodeLabels(labels).value == EncodeLabel(labels[0]).value + EncodeLabels(labels[1..]).value
    decreases |labels|
  {
    hide EncodeLabel;
    var n := |labels| - 1;
    if n == 0 {
      assert labels[..0] == [] && labels[1..] == [];
      assert EncodeLabels(labels[..0]) == Ok([]);
    } else {
      LabelsFront(labels[..n]);
      assert labels[1..][..n - 1] == labels[..n][1..];
      assert labels[1..][n - 1] == labels[n];
    }
  }

  lemma NothingWritten()
    ensures EncodeLabels([]) == Ok([]) && IsName([] + [0], [])
  {
    var none: Bytes := [];
    assert none + [0] == [0];
  }

  /** Each label has at most 63 octets. */
  predicate Fit(labels: seq<Text>) {
    forall i :: 0 <= i < |labels| ==> |Utf8.Encode(labels[i])| <= 63
  }

  lemma NothingToFit()
    ensures Fit([])
  {
  }

  lemma FitFront(labels: seq<Text>)
    requires labels != []
    ensures Fit(labels) <==> EncodeLabel(labels[0]).Ok? && Fit(labels[1..])
  {
    hide Utf8.Encode;
    var rest := labels[1..];
    assert forall i :: 0 <= i < |rest| ==> rest[i] == labels[i + 1];
    if EncodeLabel(labels[0]).Ok? && Fit(rest) {
      forall i | 0 <= i < |labels|
        ensures |Utf8.Encode(labels[i])| <= 63
      {
        if i > 0 {
          assert rest[i - 1] == labels[i];
        }
      }
    }
  }

  lemma {:induction false} LabelsWritten(labels: seq<Text>)
    ensures EncodeLabels(labels).Ok? <==> Fit(labels)
    ensures EncodeLabels(labels).Ok? ==> IsName(EncodeLabels(labels).value + [0], labels)
    decreases |labels|
  {
    hide Utf8.Encode, EncodeLabels, EncodeLabel, IsName, Fit;
    if labels == [] {
      NothingWritten();
      NothingToFit();
    } else {
      var rest := labels[1..];
      LabelsWritten(rest);
      LabelsFront(labels);
      FitFront(labels);
      if EncodeLabels(labels).Ok? {
        NameFront(labels, EncodeLabels(labels).value, EncodeLabels(rest).value);
      }
    }
  }

  lemma NameFront(labels: seq<Text>, e: Bytes, rest: Bytes)
    requires labels != [] && EncodeLabel(labels[0]).Ok? && e == EncodeLabel(labels[0]).value + rest
    requires IsName(rest + [0], labels[1..])
    ensures IsName(e + [0], labels)
  {
    hide Utf8.Encode;
    LabelInFront(|Utf8.Encode(labels[0])|, Utf8.Encode(labels[0]), rest);
  }

  lemma LabelInFront(n: Byte, b: Bytes, rest: Bytes)
    requires n == |b|
    ensures var d := ([n] + b) + rest + [0];
            |d| > n && d[0] == n && d[1..1 + n] == b && d[1 + n..] == rest + [0]
  {
  }

  /** A name is written label by label, and exactly when each label has at most 63 octets. */
  lemma NameWritten(name: Text) returns (labels: seq<Text>)
    ensures AreLabels(labels, name)
    ensures EncodeName(name).Ok? <==> Fit(labels)
    ensures EncodeName(name).Ok? ==> IsName(EncodeName(name).value, labels)
  {
    hide AreLabels, IsName, EncodeLabels, Utf8.Encode, Fit;
    labels := LabelsOf(name);
    LabelsAre(name);
    LabelsWritten(labels);
  }

  // ----- what is read -----

  /** One turn of the walk at an octet of any packet, and what the rest of the walk adds. */
  ghost predicate Turns(data: Bytes, at: nat, budget: nat, r: Result<Walked, Error>)
    requires at < |data| && budget > 0
  {
    var first := data[at];
    if first == 0 then r == Ok(Walked([], at + 1, None))
    else if first <= 63 then
      if at + 1 + first > |data| then r == Err(LabelPastEnd)
      else Follows(Walk(data, at + 1 + first, budget - 1), [Utf8.Decode(data[at + 1..at + 1 + first])], None, r)
    else if first <= 191 then r == Err(LabelLength)
    else if at + 1 == |data| then r == Err(MissingPointerOctet)
    else
      var target := 256 * (first as int - 192) + data[at + 1] as int;
      if target >= |data| then r == Err(PointerPastEnd)
      else Follows(Walk(data, target, budget - 1), [], Some(at + 2), r)
  }

  /** The label goes in front, and the first pointer says where the name ends in the packet. */
  predicate Follows(rest: Result<Walked, Error>, found: seq<Text>, after: Option<nat>, r: Result<Walked, Error>) {
    if rest.Err? then r == rest
    else
      && r.Ok? && r.value.labels == found + rest.value.labels && r.value.stop == rest.value.stop
      && r.value.afterPointer == if after.Some? then after else rest.value.afterPointer
  }

  lemma WalkTurns(data: Bytes, at: nat, budget: nat)
    requires at < |data| && budget > 0
    ensures Turns(data, at, budget, Walk(data, at, budget))
  {
    hide Utf8.Decode;
    if data[at] >= 192 && at + 1 < |data| && 256 * (data[at] as int - 192) + data[at + 1] as int < |data| {
      var w := Walk(data, 256 * (data[at] as int - 192) + data[at + 1] as int, budget - 1);
      if w.Ok? {
        assert [] + w.value.labels == w.value.labels;
      }
    }
  }

  /**
   * Any packet: the labels of at most 128 turns, joined by dots and closed by one, and the offset behind the
   * first pointer or, without one, behind the last octet read; no turn is left, or no octet, ends the walk.
   */
  lemma NameRead(data: Bytes, at: nat)
    ensures var w, r := Walk(data, at, 128), DecodeName(data, at);
            if w.Err? then r == Err(w.error)
            else
              && r.Ok? && r.value.name == Dotted(w.value.labels) + ['.' as int]
              && r.value.offset == if w.value.afterPointer.Some? then w.value.afterPointer.value else w.value.stop
    ensures forall k: nat, budget: nat ::
              k >= |data| || budget == 0 ==> Walk(data, k, budget) == Ok(Walked([], k, None))
  {
    hide Join, Dotted;
    var w := Walk(data, at, 128);
    if w.Ok? {
      JoinDotted(w.value.labels);
    }
  }
}
