/** A message that does not decode stops the RemoteXPC receiver for good. */
module RemoteXpcStuck {
  import opened Bytes
  import opened Wrappers
  import opened Http2Format
  import opened RemoteXpcSpec
  import opened RemoteXpcTheorems
  import K = XpcKeys
  import R = XpcRoundTrip
  import X = XpcFormat

  /** The wrapper in front of `b` is not one, or is there with all of its body. */
  predicate Whole(b: Bytes) {
    |b| >= X.HEADER_SIZE && (FromLE(b[0..4]) != X.WRAPPER_MAGIC || X.HEADER_SIZE + FromLE(b[8..16]) <= |b|)
  }

  /** Whatever follows it, such a message fails to decode for good. */
  lemma ErrorStays(round: X.Rounding, b: Bytes, tail: Bytes)
    requires Whole(b) && X.DecodeMessage(round, b).Err?
    ensures X.DecodeMessage(round, b + tail).Err?
  {
    hide FromLE, X.DecodeObject;
    var c := b + tail;
    assert c[0..4] == b[0..4] && c[8..16] == b[8..16];
    var len := FromLE(b[8..16]);
    if FromLE(b[0..4]) == X.WRAPPER_MAGIC && len != 0 {
      if len < 8 {
        if |c| >= 32 {
          R.EmptyBody(round, c, len);
        }
      } else {
        assert c[24..28] == b[24..28] && c[28..32] == b[28..32];
        assert c[32..24 + len] == b[32..24 + len];
      }
    }
  }

  lemma GreedyStuck(round: X.Rounding, b: Bytes, tail: Bytes)
    requires Whole(b) && X.DecodeMessage(round, b).Err?
    ensures Greedy(round, b + tail) == Decoded([], b + tail)
  {
    hide X.DecodeMessage;
    ErrorStays(round, b, tail);
  }

  /** Whatever frames arrive, nothing is emitted and every byte is kept. */
  ghost predicate Stuck(round: X.Rounding, t: Transport) {
    forall fs: seq<Frame> ::
      HandleFrames(round, t, fs).pending == t.pending + Payload(fs) && HandleFrames(round, t, fs).emitted == t.emitted
  }

  lemma StuckFrames(round: X.Rounding, t: Transport, fs: seq<Frame>)
    requires Whole(t.pending) && X.DecodeMessage(round, t.pending).Err?
    ensures HandleFrames(round, t, fs) == t.(pending := t.pending + Payload(fs), written := t.written + AllUpdates(fs))
  {
    hide X.DecodeMessage, Greedy, HandleFrames, Events;
    GreedyStuck(round, t.pending, []);
    assert t.pending + [] == t.pending;
    GreedyStuck(round, t.pending, Payload(fs));
    FramesDecodeJoined(round, t, fs);
    NoEvents();
    assert t.emitted + [] == t.emitted;
  }

  lemma DecodedMoves(round: X.Rounding, t: Transport)
    requires X.DecodeMessage(round, t.pending).Ok?
    ensures |Greedy(round, t.pending).rest| < |t.pending|
  {
    hide X.DecodeMessage;
    assert t.pending != [] by {
      assert X.DecodeMessage(round, t.pending).value.next <= |t.pending|;
    }
    GreedyShorter(round, t.pending[X.DecodeMessage(round, t.pending).value.next..]);
  }

  lemma {:induction false} GreedyShorter(round: X.Rounding, b: Bytes)
    ensures |Greedy(round, b).rest| <= |b|
    decreases |b|
  {
    hide X.DecodeMessage;
    if b != [] && X.DecodeMessage(round, b).Ok? {
      GreedyShorter(round, b[X.DecodeMessage(round, b).value.next..]);
    }
  }

  /**
   * Once the pending bytes begin with a bad magic or with a whole message, nothing is emitted ever again
   * if and only if they do not decode.
   */
  lemma StuckExactlyWhen(round: X.Rounding, t: Transport)
    requires Whole(t.pending)
    ensures Stuck(round, t) <==> X.DecodeMessage(round, t.pending).Err?
  {
    hide X.DecodeMessage, Greedy;
    if X.DecodeMessage(round, t.pending).Err? {
      forall fs: seq<Frame>
        ensures HandleFrames(round, t, fs).pending == t.pending + Payload(fs)
        ensures HandleFrames(round, t, fs).emitted == t.emitted
      {
        StuckFrames(round, t, fs);
      }
    } else {
      DecodedMoves(round, t);
      EmptyFrame(round, t);
    }
  }

  /** A frame without bytes makes the receiver try again. */
  lemma EmptyFrame(round: X.Rounding, t: Transport)
    ensures var fs := [Data(0, [], 0)];
            Payload(fs) == [] && HandleFrames(round, t, fs).pending == Greedy(round, t.pending).rest
  {
    hide Greedy, Updates, Events;
    var fs := [Data(0, [], 0)];
    assert fs[..0] == [] && t.pending + [] == t.pending;
    assert HandleFrames(round, t, fs[..0]) == t && Payload(fs[..0]) == [];
  }

  /** Chunk by chunk: the receiver keeps waiting behind that message, whatever arrives. */
  lemma {:induction false} NothingMoreArrives(round: X.Rounding, t: Transport, chunks: seq<Bytes>)
    requires Whole(t.pending) && X.DecodeMessage(round, t.pending).Err?
    ensures var u := HandleChunks(round, t, chunks);
            && t.pending <= u.pending && t.emitted <= u.emitted
            && forall i :: |t.emitted| <= i < |u.emitted| ==> u.emitted[i] == ErrorEvent
  {
    hide X.DecodeMessage, HandleFrames, Drain, Whole, Payload, AllUpdates;
    if chunks != [] {
      var n := |chunks| - 1;
      NothingMoreArrives(round, t, chunks[..n]);
      var u := HandleChunks(round, t, chunks[..n]);
      StillWhole(round, t.pending, u.pending);
      var d := Drain(u.buffer + chunks[n]);
      if !d.failed {
        StuckFrames(round, u.(buffer := d.rest), d.frames);
      }
    }
  }

  lemma StillWhole(round: X.Rounding, b: Bytes, c: Bytes)
    requires Whole(b) && X.DecodeMessage(round, b).Err? && b <= c
    ensures Whole(c) && X.DecodeMessage(round, c).Err?
  {
    hide X.DecodeMessage, FromLE;
    assert c == b + c[|b|..];
    assert c[0..4] == b[0..4] && c[8..16] == b[8..16];
    ErrorStays(round, b, c[|b|..]);
  }

  // ----- one key that is not ASCII is enough -----

  /** An encoded message is whole, and decodes only if its body does. */
  lemma EncodedBody(round: X.Rounding, flags: int, id: int, es: seq<X.Entry>)
    requires X.EncodeMessage(flags, id, Some(es)).Ok?
    ensures X.EncodeDictionary(es).Ok?
    ensures var e, d := X.EncodeMessage(flags, id, Some(es)).value, X.EncodeDictionary(es).value;
            Whole(e) && (X.DecodeObject(round, d, 0).Err? ==> X.DecodeMessage(round, e).Err?)
  {
    hide LE, FromLE, R.At, Pow256, X.Header, X.DecodeObject, X.EncodeDictionary, X.ReadNum;
    var e, d := X.EncodeMessage(flags, id, Some(es)).value, X.EncodeDictionary(es).value;
    var h := X.Header(flags, |d| + 8, id).value;
    var m, v := LE(X.OBJECT_MAGIC, 4), LE(X.BODY_VERSION, 4);
    R.WholeAt(h + m + v, d);
    R.WholeAt(h + m + v + d, []);
    assert h + m + v + d + [] == e;
    R.AtSplit(e, 0, h + m + v, d);
    R.AtSplit(e, 0, h + m, v);
    R.AtSplit(e, 0, h, m);
    R.HeaderAt(e, flags, |d| + 8, id);
    R.SliceAt(e, 32, d);
    assert JsSlice(e, 32, 32 + |d|) == d;
  }

  /**
   * A message of one entry whose key is NUL-free and has lengths that differ modulo 4 by anything but 3:
   * once its last byte has arrived, no message is ever received again.
   */
  lemma OneKeyStops(round: X.Rounding, flags: int, id: int, key: Text, v: X.Xpc, t: Transport, chunks: seq<Bytes>)
    requires 0 !in key && K.Shift(key) != 0 && K.Shift(key) != 3
    requires X.EncodeMessage(flags, id, Some([X.Entry(key, v)])).Ok?
    requires t.pending == X.EncodeMessage(flags, id, Some([X.Entry(key, v)])).value
    ensures var u := HandleChunks(round, t, chunks);
            && t.pending <= u.pending && t.emitted <= u.emitted
            && forall i :: |t.emitted| <= i < |u.emitted| ==> u.emitted[i] == ErrorEvent
  {
    hide X.EncodeMessage, X.DecodeMessage, X.DecodeObject, X.EncodeDictionary, K.Shift, Whole;
    var es := [X.Entry(key, v)];
    EncodedBody(round, flags, id, es);
    K.DictIsDictionary(es);
    K.OneEntryCases(round, key, v);
    NothingMoreArrives(round, t, chunks);
  }
}
