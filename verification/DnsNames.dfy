/** DNS names: length-prefixed labels, compression pointers, and a bounded decoding loop. */
module DnsFormat {
  import opened Bytes
  import opened Wrappers
  import Utf8

  const DOT: CodeUnit := 46
  const MAX_LABEL_OCTETS: nat := 63
  const COMPRESSION_PREFIX: nat := 0xc0
  const DECODE_LOOP_LIMIT: nat := 128

  datatype Error = LabelTooLong | MissingPointerOctet | PointerPastEnd | LabelLength | LabelPastEnd

  // ----- encoding -----

  /** One trailing dot is dropped. */
  function Trimmed(name: Text): Text {
    if name != [] && name[|name| - 1] == DOT then name[..|name| - 1] else name
  }

  /** `split(".")`. */
  function Split(t: Text): (r: seq<Text>)
    ensures |r| > 0
  {
    if t == [] then [[]]
    else
      var r := Split(t[1..]);
      if t[0] == DOT then [[]] + r else [[t[0]] + r[0]] + r[1..]
  }

  function LabelsOf(name: Text): seq<Text> {
    if Trimmed(name) == [] then [] else Split(Trimmed(name))
  }

  function EncodeLabel(part: Text): Result<Bytes, Error> {
    var b := Utf8.Encode(part);
    if |b| > MAX_LABEL_OCTETS then Err(LabelTooLong) else Ok([|b|] + b)
  }

  function EncodeLabels(labels: seq<Text>): Result<Bytes, Error> {
    if labels == [] then Ok([])
    else
      var init :- EncodeLabels(labels[..|labels| - 1]);
      var last :- EncodeLabel(labels[|labels| - 1]);
      Ok(init + last)
  }

  function EncodeName(name: Text): Result<Bytes, Error> {
    var b :- EncodeLabels(LabelsOf(name));
    Ok(b + [0])
  }

  // ----- decoding -----

  /** Labels found, where the walk stopped, and the offset after the first pointer followed. */
  datatype Walked = Walked(labels: seq<Text>, stop: nat, afterPointer: Option<nat>)

  /** The decoding loop with `budget` turns left; running out of turns or of data ends the name quietly. */
  function Walk(data: Bytes, at: nat, budget: nat): Result<Walked, Error>
    decreases budget
  {
    if budget == 0 || at >= |data| then Ok(Walked([], at, None))
    else if data[at] == 0 then Ok(Walked([], at + 1, None))
    else if data[at] >= COMPRESSION_PREFIX then
      if at + 1 >= |data| then Err(MissingPointerOctet)
      else
        var pointer := PointerTarget(data[at], data[at + 1]);
        if pointer >= |data| then Err(PointerPastEnd)
        else
          var w :- Walk(data, pointer, budget - 1);
          Ok(w.(afterPointer := Some(at + 2)))
    else if data[at] > MAX_LABEL_OCTETS then Err(LabelLength)
    else
      var end := at + 1 + data[at];
      if end > |data| then Err(LabelPastEnd)
      else
        var w :- Walk(data, end, budget - 1);
        Ok(w.(labels := [Utf8.Decode(data[at + 1..end])] + w.labels))
  }

  function PointerTarget(high: int, low: int): nat
    requires COMPRESSION_PREFIX <= high && low >= 0
  {
    (high - COMPRESSION_PREFIX) * 0x100 + low
  }

  /** `labels.join(".")`. */
  function Join(labels: seq<Text>): Text {
    if labels == [] then []
    else if |labels| == 1 then labels[0]
    else labels[0] + [DOT] + Join(labels[1..])
  }

  datatype Decoded = Decoded(name: Text, offset: nat)

  function Finish(w: Walked): Decoded {
    Decoded(Join(w.labels) + [DOT], if w.afterPointer.Some? then w.afterPointer.value else w.stop)
  }

  function DecodeName(data: Bytes, at: nat): Result<Decoded, Error> {
    var w :- Walk(data, at, DECODE_LOOP_LIMIT);
    Ok(Finish(w))
  }
}

module DnsNames {
  import opened Bytes
  import opened Wrappers
  import opened DnsFormat
  import Utf8

  method EncodeName(name: Text) returns (r: Result<Bytes, Error>)
    ensures r == DnsFormat.EncodeName(name)
  {
    var labels := LabelsOf(name);
    var out: Bytes := [];
    for i := 0 to |labels|
      invariant EncodeLabels(labels[..i]) == Ok(out)
    {
      assert labels[..i + 1][..i] == labels[..i];
      var bytes := Utf8.Encode(labels[i]);
      if |bytes| > MAX_LABEL_OCTETS {
        LabelsError(labels, i + 1);
        return Err(LabelTooLong);
      }
      out := out + ([|bytes|] + bytes);
    }
    assert labels[..|labels|] == labels;
    r := Ok(out + [0]);
  }

  lemma {:induction false} LabelsError(labels: seq<Text>, n: nat)
    requires n <= |labels| && EncodeLabels(labels[..n]).Err?
    ensures EncodeLabels(labels) == EncodeLabels(labels[..n])
  {
    if n == |labels| {
      assert labels[..n] == labels;
    } else {
      assert labels[..|labels| - 1][..n] == labels[..n];
      LabelsError(labels[..|labels| - 1], n);
    }
  }

  /** The loop so far, and what the rest of the walk adds to it. */
  predicate Continues(whole: Result<Walked, Error>, labels: seq<Text>, jumped: bool, end: nat,
                      rest: Result<Walked, Error>)
  {
    if rest.Err? then whole == rest
    else
      && whole.Ok? && whole.value.labels == labels + rest.value.labels && whole.value.stop == rest.value.stop
      && whole.value.afterPointer == if jumped then Some(end) else rest.value.afterPointer
  }

  lemma StartsOut(whole: Result<Walked, Error>, start: nat)
    ensures Continues(whole, [], false, start, whole)
  {
    if whole.Ok? {
      assert [] + whole.value.labels == whole.value.labels;
    }
  }

  lemma PointerTurn(data: Bytes, at: nat, budget: nat, whole: Result<Walked, Error>, labels: seq<Text>, jumped: bool,
                    end: nat)
    requires budget > 0 && at + 1 < |data| && data[at] >= COMPRESSION_PREFIX
    requires Continues(whole, labels, jumped, end, Walk(data, at, budget))
    ensures var pointer := PointerTarget(data[at], data[at + 1]);
            if pointer >= |data| then whole == Err(PointerPastEnd)
            else Continues(whole, labels, true, if jumped then end else at + 2, Walk(data, pointer, budget - 1))
  {
    hide Utf8.Decode;
  }

  lemma LabelTurn(data: Bytes, at: nat, budget: nat, whole: Result<Walked, Error>, labels: seq<Text>, jumped: bool,
                  end: nat)
    requires budget > 0 && at < |data| && 0 < data[at] <= MAX_LABEL_OCTETS && at + 1 + data[at] <= |data|
    requires Continues(whole, labels, jumped, end, Walk(data, at, budget))
    ensures var labelEnd := at + 1 + data[at];
            Continues(whole, labels + [Utf8.Decode(data[at + 1..labelEnd])], jumped, end,
                      Walk(data, labelEnd, budget - 1))
  {
    hide Utf8.Decode;
    var labelEnd := at + 1 + data[at];
    var w, found := Walk(data, labelEnd, budget - 1), Utf8.Decode(data[at + 1..labelEnd]);
    if w.Ok? {
      assert labels + ([found] + w.value.labels) == (labels + [found]) + w.value.labels;
    }
  }

  /** The turns that end the walk. */
  lemma LastTurn(data: Bytes, at: nat, budget: nat, whole: Result<Walked, Error>, labels: seq<Text>, jumped: bool,
                 end: nat)
    requires Continues(whole, labels, jumped, end, Walk(data, at, budget))
    ensures budget == 0 || at >= |data| ==> Ended(whole, labels, jumped, end, at)
    ensures budget > 0 && at < |data| && data[at] == 0 ==> Ended(whole, labels, jumped, end, at + 1)
    ensures budget > 0 && at + 1 == |data| && data[at] >= COMPRESSION_PREFIX ==> whole == Err(MissingPointerOctet)
    ensures budget > 0 && at < |data| && MAX_LABEL_OCTETS < data[at] < COMPRESSION_PREFIX ==> whole == Err(LabelLength)
    ensures budget > 0 && at < |data| && 0 < data[at] <= MAX_LABEL_OCTETS && at + 1 + data[at] > |data| ==>
              whole == Err(LabelPastEnd)
  {
    hide Utf8.Decode;
    assert labels + [] == labels;
  }

  predicate Ended(whole: Result<Walked, Error>, labels: seq<Text>, jumped: bool, end: nat, stop: nat) {
    whole == Ok(Walked(labels, stop, if jumped then Some(end) else None))
  }

  method DecodeName(data: Bytes, start: nat) returns (r: Result<Decoded, Error>)
    ensures r == DnsFormat.DecodeName(data, start)
  {
    hide Utf8.Decode, Join, Walk, Continues;
    var labels: seq<Text> := [];
    var jumped := false;
    var end: nat := start;
    var offset: nat := start;
    ghost var whole := Walk(data, start, DECODE_LOOP_LIMIT);
    ghost var ended := false;
    StartsOut(whole, start);
    var guard := 0;
    while guard < DECODE_LOOP_LIMIT
      invariant guard <= DECODE_LOOP_LIMIT && !ended
      invariant Continues(whole, labels, jumped, end, Walk(data, offset, DECODE_LOOP_LIMIT - guard))
    {
      ghost var budget := DECODE_LOOP_LIMIT - guard;
      LastTurn(data, offset, budget, whole, labels, jumped, end);
      if offset >= |data| {
        ended := true;
        break;
      }
      var length := data[offset];
      if length == 0 {
        offset := offset + 1;
        ended := true;
        break;
      }
      guard := guard + 1;
      if length >= COMPRESSION_PREFIX {
        if offset + 1 >= |data| {
          return Err(MissingPointerOctet);
        }
        PointerTurn(data, offset, budget, whole, labels, jumped, end);
        var pointer := PointerTarget(length, data[offset + 1]);
        if pointer >= |data| {
          return Err(PointerPastEnd);
        }
        if !jumped {
          end := offset + 2;
        }
        offset := pointer;
        jumped := true;
        continue;
      }
      if length > MAX_LABEL_OCTETS {
        return Err(LabelLength);
      }
      var labelEnd := offset + 1 + length;
      if labelEnd > |data| {
        return Err(LabelPastEnd);
      }
      LabelTurn(data, offset, budget, whole, labels, jumped, end);
      labels := labels + [Utf8.Decode(data[offset + 1..labelEnd])];
      offset := labelEnd;
    }
    if !ended {
      LastTurn(data, offset, 0, whole, labels, jumped, end);
    }
    assert Ended(whole, labels, jumped, end, offset);
    r := Ok(Decoded(Join(labels) + [DOT], if jumped then end else offset));
  }
}
