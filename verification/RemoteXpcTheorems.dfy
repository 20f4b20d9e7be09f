/** RemoteXPC messages arrive whole and in order, however the byte stream is chunked. */
module RemoteXpcTheorems {
  import opened Bytes
  import opened Wrappers
  import opened Http2Format
  import opened RemoteXpcSpec
  import X = XpcFormat
  import R = XpcRoundTrip

  // ----- messages -----

  /** Decoding greedily, then continuing with what is left and more data, is decoding it all at once. */
  lemma {:induction false} GreedySplit(round: X.Rounding, a: Bytes, b: Bytes)
    ensures var d := Greedy(round, a); var e := Greedy(round, d.rest + b);
            Greedy(round, a + b) == Decoded(d.bodies + e.bodies, e.rest)
    decreases |a|
  {
    hide X.DecodeMessage;
    if a == [] {
      assert a + b == b && [] + b == b;
    } else {
      var m := X.DecodeMessage(round, a);
      if m.Err? {
        assert [] + Greedy(round, a + b).bodies == Greedy(round, a + b).bodies;
      } else {
        R.DecodeIgnoresTail(round, a, b);
        var n := m.value.next;
        assert (a + b)[n..] == a[n..] + b;
        GreedySplit(round, a[n..], b);
        var head := if m.value.value.body.Some? then [m.value.value.body.value] else [];
        var d := Greedy(round, a[n..]);
        var e := Greedy(round, d.rest + b);
        assert head + (d.bodies + e.bodies) == (head + d.bodies) + e.bodies;
      }
    }
  }

  /** The DATA payloads of frames, joined. */
  function Payload(fs: seq<Frame>): Bytes {
    if fs == [] then []
    else Payload(fs[..|fs| - 1]) + (if fs[|fs| - 1].Data? then fs[|fs| - 1].data else [])
  }

  function AllUpdates(fs: seq<Frame>): seq<Bytes> {
    if fs == [] then [] else AllUpdates(fs[..|fs| - 1]) + Updates(fs[|fs| - 1])
  }

  /**
   * Handling frames one by one emits the greedy decoding of their payloads joined, however messages
   * are cut into frames, and writes the window updates in order.
   */
  lemma {:induction false} FramesDecodeJoined(round: X.Rounding, t: Transport, fs: seq<Frame>)
    requires Greedy(round, t.pending) == Decoded([], t.pending)
    ensures var d := Greedy(round, t.pending + Payload(fs));
            HandleFrames(round, t, fs)
            == t.(pending := d.rest, emitted := t.emitted + Events(d.bodies), written := t.written + AllUpdates(fs))
    ensures Greedy(round, HandleFrames(round, t, fs).pending) == Decoded([], HandleFrames(round, t, fs).pending)
  {
    hide Greedy, Updates, Events;
    if fs == [] {
      assert t.pending + [] == t.pending;
      assert Events([]) == [] by {
        NoEvents();
      }
      assert t.emitted + [] == t.emitted && t.written + [] == t.written;
    } else {
      var init, last := fs[..|fs| - 1], fs[|fs| - 1];
      FramesDecodeJoined(round, t, init);
      if last.Data? {
        OneMoreFrame(round, t, init, last);
        assert t.pending + Payload(fs) == t.pending + Payload(init) + last.data;
        assert t.written + AllUpdates(init) + Updates(last) == t.written + AllUpdates(fs);
      } else {
        OtherFrame(last);
        assert Payload(fs) == Payload(init) && AllUpdates(fs) == AllUpdates(init);
      }
    }
  }

  lemma NoEvents()
    ensures Events([]) == []
  {
  }

  lemma OtherFrame(f: Frame)
    requires f.Other?
    ensures Updates(f) == []
  {
  }

  lemma OneMoreFrame(round: X.Rounding, t: Transport, init: seq<Frame>, last: Frame)
    requires last.Data?
    requires var d := Greedy(round, t.pending + Payload(init));
             HandleFrames(round, t, init)
             == t.(pending := d.rest, emitted := t.emitted + Events(d.bodies), written := t.written + AllUpdates(init))
    ensures var d := Greedy(round, t.pending + Payload(init) + last.data);
            var u := HandleFrame(round, HandleFrames(round, t, init), last);
            && u == t.(pending := d.rest, emitted := t.emitted + Events(d.bodies),
                       written := t.written + AllUpdates(init) + Updates(last))
            && Greedy(round, u.pending) == Decoded([], u.pending)
  {
    hide Greedy, Updates, Events, HandleFrames;
    var d := Greedy(round, t.pending + Payload(init));
    GreedySplit(round, t.pending + Payload(init), last.data);
    var e := Greedy(round, d.rest + last.data);
    EventsAppend(d.bodies, e.bodies);
    assert t.emitted + Events(d.bodies) + Events(e.bodies) == t.emitted + (Events(d.bodies) + Events(e.bodies));
    GreedyStops(round, d.rest + last.data);
  }

  lemma EventsAppend(a: seq<X.Xpc>, b: seq<X.Xpc>)
    ensures Events(a + b) == Events(a) + Events(b)
  {
  }

  /** What is left does not decode any further. */
  lemma {:induction false} GreedyStops(round: X.Rounding, b: Bytes)
    ensures var d := Greedy(round, b); Greedy(round, d.rest) == Decoded([], d.rest)
    decreases |b|
  {
    hide X.DecodeMessage;
    if b != [] && X.DecodeMessage(round, b).Ok? {
      GreedyStops(round, b[X.DecodeMessage(round, b).value.next..]);
    }
  }

  // ----- frames -----

  lemma CompleteMore(a: Bytes, b: Bytes)
    requires Complete(a)
    ensures Complete(a + b) && FrameLength(a + b) == FrameLength(a)
    ensures var total := FRAME_HEADER_SIZE + FrameLength(a);
            (a + b)[..total] == a[..total] && (a + b)[total..] == a[total..] + b
  {
    assert (a + b)[0..3] == a[0..3];
  }

  /** Cutting frames off a prefix, then off what is left and more data, is cutting them off the whole. */
  lemma {:induction false} DrainSplit(a: Bytes, b: Bytes)
    requires !Drain(a).failed
    ensures var d := Drain(a); var e := Drain(d.rest + b);
            Drain(a + b) == Drained(d.frames + e.frames, e.rest, e.failed)
    decreases |a|
  {
    hide ParseFrame, Complete, FrameLength, Drain;
    if !Complete(a) {
      NotComplete(a);
      assert [] + Drain(a + b).frames == Drain(a + b).frames;
    } else {
      DrainStep(a);
      CompleteMore(a, b);
      DrainStep(a + b);
      var total := FRAME_HEADER_SIZE + FrameLength(a);
      DrainSplit(a[total..], b);
      var f := ParseFrame(a[..total]).value;
      var d := Drain(a[total..]);
      assert [f] + (d.frames + Drain(d.rest + b).frames) == ([f] + d.frames) + Drain(d.rest + b).frames;
    }
  }

  lemma DrainStep(a: Bytes)
    requires Complete(a)
    ensures var total := FRAME_HEADER_SIZE + FrameLength(a);
            && total <= |a| && Complete(a[..total])
            && Drain(a) == match ParseFrame(a[..total])
                           case Err(_) => Drained([], a[total..], true)
                           case Ok(f) => var d := Drain(a[total..]); Drained([f] + d.frames, d.rest, d.failed)
  {
    var total := FRAME_HEADER_SIZE + FrameLength(a);
    assert a[..total][0..3] == a[0..3];
  }

  /** A prefix of a stream without malformed frames has none either. */
  lemma {:induction false} PrefixClean(a: Bytes, b: Bytes)
    requires !Drain(a + b).failed
    ensures !Drain(a).failed
    decreases |a|
  {
    hide ParseFrame, Complete, FrameLength;
    if Complete(a) {
      DrainStep(a);
      CompleteMore(a, b);
      DrainStep(a + b);
      PrefixClean(a[FRAME_HEADER_SIZE + FrameLength(a)..], b);
    } else {
      NotComplete(a);
    }
  }

  lemma NotComplete(a: Bytes)
    requires !Complete(a)
    ensures Drain(a) == Drained([], a, false)
  {
  }

  lemma {:induction false} FramesAppend(round: X.Rounding, t: Transport, fs: seq<Frame>, gs: seq<Frame>)
    ensures HandleFrames(round, t, fs + gs) == HandleFrames(round, HandleFrames(round, t, fs), gs)
  {
    hide HandleFrame;
    if gs == [] {
      assert fs + gs == fs;
    } else {
      assert (fs + gs)[..|fs + gs| - 1] == fs + gs[..|gs| - 1];
      FramesAppend(round, t, fs, gs[..|gs| - 1]);
    }
  }

  lemma {:induction false} FramesKeepBuffer(round: X.Rounding, t: Transport, fs: seq<Frame>, buffer: Bytes)
    ensures HandleFrames(round, t.(buffer := buffer), fs) == HandleFrames(round, t, fs).(buffer := buffer)
  {
    hide Greedy, Updates;
    if fs != [] {
      FramesKeepBuffer(round, t, fs[..|fs| - 1], buffer);
    }
  }

  /**
   * Chunk independence: for a byte stream without malformed padding, the transport ends in the same
   * state, having emitted and written the same things, however the stream is cut into chunks.
   */
  lemma {:induction false} ChunksIndependent(round: X.Rounding, t: Transport, chunks: seq<Bytes>)
    requires t.buffer == [] && !Drain(Flatten(chunks)).failed
    ensures HandleChunks(round, t, chunks) == HandleData(round, t, Flatten(chunks))
  {
    hide Drain, HandleFrames;
    if chunks == [] {
      NothingHandled(round, t);
    } else {
      var init, last := chunks[..|chunks| - 1], chunks[|chunks| - 1];
      var s := Flatten(init);
      PrefixClean(s, last);
      ChunksIndependent(round, t, init);
      DrainSplit(s, last);
      assert [] + s == s && [] + Flatten(chunks) == Flatten(chunks);
      var d := Drain(s);
      var e := Drain(d.rest + last);
      FramesKeepBuffer(round, t, d.frames, d.rest);
      FramesKeepBuffer(round, t, d.frames + e.frames, e.rest);
      FramesKeepBuffer(round, HandleFrames(round, t, d.frames), e.frames, e.rest);
      FramesAppend(round, t, d.frames, e.frames);
    }
  }

  lemma NothingHandled(round: X.Rounding, t: Transport)
    requires t.buffer == []
    ensures HandleData(round, t, []) == t && HandleChunks(round, t, []) == t && Flatten<Byte>([]) == []
  {
    assert t.buffer + [] == [];
    assert !Complete([]);
  }

  // ----- serialized frames -----

  lemma OneField(t: FieldType, v: int)
    requires 0 <= v < (match t case H => 0x1_0000 case B => 0x100 case L => TWO32)
    ensures Packed([t], [v]) == Ok(BE(v, Width(t)))
  {
    Pow256Values();
    assert [t][..0] == [] && [v][..0] == [];
    assert Packed([t][..0], [v][..0]) == Ok([]);
    assert [] + BE(v, Width(t)) == BE(v, Width(t));
  }

  lemma HeaderPacked(n: nat, kind: Byte, flags: Byte, streamId: nat)
    requires streamId < TWO32
    ensures var h, low := n / 0x100 % 0x1_0000, n % 0x100;
            Packed(HBBBL, [h, low, kind, flags, streamId])
            == Ok([h / 256, h % 256, low, kind, flags] + BE(streamId, 4))
  {
    hide BE, Packed, PackedField;
    var h, low := n / 0x100 % 0x1_0000, n % 0x100;
    var v: seq<int> := [h, low, kind, flags, streamId];
    OneField(H, h);
    assert HBBBL[..1] == [H] && v[..1] == [h];
    TwoBytes(h);
    var p: Bytes := [h / 256, h % 256];
    FieldBytes(H, h);
    ByteField(v, p, 1);
    ByteField(v, p + [low], 2);
    ByteField(v, p + [low] + [kind], 3);
    PackedMore(HBBBL, v, 4);
    FieldBytes(L, streamId);
    assert HBBBL[..5] == HBBBL && v[..5] == v;
    assert p + [low] + [kind] + [flags] + BE(streamId, 4)
           == [h / 256, h % 256, low, kind, flags] + BE(streamId, 4);
  }

  lemma FieldBytes(t: FieldType, v: int)
    requires 0 <= v < (match t case H => 0x1_0000 case B => 0x100 case L => TWO32)
    ensures PackedField(t, v) == Ok(BE(v, Width(t)))
  {
    Pow256Values();
  }

  lemma ByteField(v: seq<int>, p: Bytes, i: nat)
    requires |v| == 5 && 1 <= i <= 3 && 0 <= v[i] < 256 && Packed(HBBBL[..i], v[..i]) == Ok(p)
    ensures Packed(HBBBL[..i + 1], v[..i + 1]) == Ok(p + [v[i]])
  {
    hide BE, Packed, PackedField;
    PackedMore(HBBBL, v, i);
    FieldBytes(B, v[i]);
    OneByte(v[i]);
  }

  lemma PackedMore(types: seq<FieldType>, values: seq<int>, i: nat)
    requires |types| == |values| && i < |types|
    ensures Packed(types[..i + 1], values[..i + 1]) ==
            match Packed(types[..i], values[..i])
            case Err(e) => Err(e)
            case Ok(init) =>
              match PackedField(types[i], values[i])
              case Err(e) => Err(e)
              case Ok(last) => Ok(init + last)
  {
    assert types[..i + 1][..i] == types[..i] && values[..i + 1][..i] == values[..i];
  }

  lemma OneByte(n: nat)
    ensures BE(n, 1) == [n % 256]
  {
    assert BE(n / 256, 0) == [];
  }

  lemma TwoBytes(n: nat)
    requires n < 0x1_0000
    ensures BE(n, 2) == [n / 256, n % 256]
  {
    OneByte(n / 256);
  }

  lemma ThreeBytesRead(a: Byte, b: Byte, c: Byte)
    ensures var x: int, y: int, z: int := a, b, c; FromBE([a, b, c]) == x * 0x1_0000 + y * 0x100 + z
  {
    assert [a, b, c][..2] == [a, b] && [a, b][..1] == [a] && [a][..0] == [];
    assert FromBE([a]) == a;
    assert FromBE([a, b]) == 256 * FromBE([a]) + b;
    assert FromBE([a, b, c]) == 256 * FromBE([a, b]) + c;
  }

  /** The length field holds the body length exactly when the body is shorter than 2^24 bytes. */
  lemma LengthFieldExactlyWhen(kind: Byte, flags: Byte, streamId: nat, body: Bytes)
    ensures SerializeFrame(kind, flags, streamId, body).Ok?
    ensures var b := SerializeFrame(kind, flags, streamId, body).value;
            |b| == FRAME_HEADER_SIZE + |body| && (FrameLength(b) == |body| <==> |body| < MAX_BODY)
            && b[3] == kind && b[4] == flags && b[5..9] == BE(streamId % TWO31, 4) && b[9..] == body
  {
    var n := |body|;
    var h, low := n / 0x100 % 0x1_0000, n % 0x100;
    HeaderPacked(n, kind, flags, streamId % TWO31);
    var b := SerializeFrame(kind, flags, streamId, body).value;
    assert b == [h / 256, h % 256, low, kind, flags] + BE(streamId % TWO31, 4) + body;
    assert b[0..3] == [h / 256, h % 256, low];
    ThreeBytesRead(h / 256, h % 256, low);
    assert FrameLength(b) == h * 0x100 + low;
    if n < MAX_BODY {
      SmallMod(n / 0x100, 0x1_0000);
    }
    assert b[5..9] == BE(streamId % TWO31, 4);
  }

  /** The frame the parser must produce: padding removed when flagged, data otherwise. */
  function Sent(f: DataFrame): Frame {
    if f.padded then Data(f.streamId % TWO31, f.data, 1 + |f.data| + f.padLength)
    else Data(f.streamId % TWO31, f.data + Zeros(f.padLength), |f.data| + f.padLength)
  }

  predicate Sendable(f: DataFrame) {
    Sent(f).bodyLen < MAX_BODY && (f.padded ==> f.padLength <= 255)
  }

  lemma BodySerialized(f: DataFrame)
    requires f.padded ==> f.padLength <= 255
    ensures SerializeBody(f) == Ok((if f.padded then [f.padLength] else []) + f.data + Zeros(f.padLength))
  {
    if f.padded {
      Pow256Values();
      OneField(B, f.padLength);
      OneByte(f.padLength);
    }
  }

  /** Parsing a serialized DATA frame gives its stream and its data, padding removed. */
  lemma SerializeParse(f: DataFrame)
    requires Sendable(f)
    ensures Serialize(f).Ok? && Complete(Serialize(f).value)
    ensures |Serialize(f).value| == FRAME_HEADER_SIZE + FrameLength(Serialize(f).value)
    ensures ParseFrame(Serialize(f).value) == Ok(Sent(f))
  {
    hide SerializeFrame, FrameLength, BE, FromBE, Packed;
    BodySerialized(f);
    var body := SerializeBody(f).value;
    var flags: nat := (if f.endStream then FLAG_END_STREAM else 0) + (if f.padded then FLAG_PADDED else 0);
    LengthFieldExactlyWhen(TYPE_DATA, flags, f.streamId, body);
    var b := Serialize(f).value;
    assert b[FRAME_HEADER_SIZE..FRAME_HEADER_SIZE + |body|] == body;
    Pow256Values();
    BERoundTrip(f.streamId % TWO31, 4);
    SmallMod(f.streamId % TWO31, TWO31);
    StripSerialized(f, body, flags);
  }

  lemma StripSerialized(f: DataFrame, body: Bytes, flags: Byte)
    requires Sendable(f) && SerializeBody(f) == Ok(body)
    requires flags == (if f.endStream then FLAG_END_STREAM else 0) + (if f.padded then FLAG_PADDED else 0)
    ensures StripPadding(body, flags) == Ok(Sent(f).data) && |body| == Sent(f).bodyLen
  {
    hide Packed;
    BodySerialized(f);
    if f.padded {
      assert body[0] == f.padLength;
      assert body[1..|body| - f.padLength] == f.data;
    } else {
      assert body == f.data + Zeros(f.padLength);
    }
  }

  function SerializeAll(fs: seq<DataFrame>): Bytes
    requires forall f :: f in fs ==> Serialize(f).Ok?
  {
    if fs == [] then [] else Serialize(fs[0]).value + SerializeAll(fs[1..])
  }

  function SentAll(fs: seq<DataFrame>): (r: seq<Frame>)
    ensures |r| == |fs| && forall i :: 0 <= i < |r| ==> r[i] == Sent(fs[i])
  {
    seq(|fs|, i requires 0 <= i < |fs| => Sent(fs[i]))
  }

  /** A stream of serialized frames is cut back into exactly those frames. */
  lemma {:induction false} DrainSerialized(fs: seq<DataFrame>)
    requires forall f :: f in fs ==> Sendable(f)
    ensures forall f :: f in fs ==> Serialize(f).Ok?
    ensures Drain(SerializeAll(fs)) == Drained(SentAll(fs), [], false)
  {
    hide Serialize, ParseFrame, Sent, Sendable, FrameLength;
    forall f | f in fs
      ensures Serialize(f).Ok?
    {
      SerializeParse(f);
    }
    if fs == [] {
      assert SentAll(fs) == [];
    } else {
      SerializeParse(fs[0]);
      var a, rest := Serialize(fs[0]).value, SerializeAll(fs[1..]);
      DrainSerialized(fs[1..]);
      CompleteMore(a, rest);
      DrainStep(a + rest);
      assert (a + rest)[|a|..] == rest && (a + rest)[..|a|] == a;
      assert SentAll(fs) == [Sent(fs[0])] + SentAll(fs[1..]);
    }
  }

  // ----- end to end -----

  /** Messages to send, encoded one after the other. */
  datatype Outgoing = Outgoing(flags: int, id: int, body: Option<seq<X.Entry>>)

  predicate Encodable(m: Outgoing) {
    X.EncodeMessage(m.flags, m.id, m.body).Ok? && (m.body.Some? ==> R.EntriesGood(m.body.value))
  }

  function EncodeAll(ms: seq<Outgoing>): Bytes
    requires forall m :: m in ms ==> Encodable(m)
  {
    if ms == [] then []
    else
      assert Encodable(ms[0]);
      X.EncodeMessage(ms[0].flags, ms[0].id, ms[0].body).value + EncodeAll(ms[1..])
  }

  function Bodies(round: X.Rounding, ms: seq<Outgoing>): seq<X.Xpc> {
    if ms == [] then []
    else (if ms[0].body.Some? then [X.XDict(R.NormEntries(round, ms[0].body.value))] else []) + Bodies(round, ms[1..])
  }

  lemma {:induction false} GreedyEncoded(round: X.Rounding, ms: seq<Outgoing>)
    requires forall m :: m in ms ==> Encodable(m)
    ensures Greedy(round, EncodeAll(ms)) == Decoded(Bodies(round, ms), [])
  {
    hide X.DecodeMessage, X.EncodeMessage, R.NormEntries, R.EntriesGood;
    if ms != [] {
      assert Encodable(ms[0]);
      var m := ms[0];
      var e, rest := X.EncodeMessage(m.flags, m.id, m.body).value, EncodeAll(ms[1..]);
      R.MessageRoundTrip(round, m.flags, m.id, m.body, rest);
      GreedyEncoded(round, ms[1..]);
      assert (e + rest)[|e|..] == rest;
    }
  }

  /**
   * The whole path: messages encoded, joined, cut anywhere into padded DATA frames on any streams, the
   * frames joined and cut anywhere into chunks.  The receiver emits exactly the messages, in order.
   */
  lemma EndToEnd(round: X.Rounding, ms: seq<Outgoing>, fs: seq<DataFrame>, chunks: seq<Bytes>)
    requires forall m :: m in ms ==> Encodable(m)
    requires forall f :: f in fs ==> Sendable(f) && Serialize(f).Ok?
    requires Payload(SentAll(fs)) == EncodeAll(ms)
    requires Flatten(chunks) == SerializeAll(fs)
    ensures HandleChunks(round, FRESH, chunks)
            == Transport([], [], Events(Bodies(round, ms)), AllUpdates(SentAll(fs)))
  {
    hide Drain, HandleFrames, Greedy, Payload, EncodeAll, Serialize, Sendable, Encodable, AllUpdates;
    DrainSerialized(fs);
    ChunksIndependent(round, FRESH, chunks);
    assert [] + Flatten(chunks) == Flatten(chunks);
    EmptyGreedy(round);
    FramesDecodeJoined(round, FRESH, SentAll(fs));
    assert [] + Payload(SentAll(fs)) == Payload(SentAll(fs));
    GreedyEncoded(round, ms);
    assert [] + Events(Bodies(round, ms)) == Events(Bodies(round, ms));
    assert [] + AllUpdates(SentAll(fs)) == AllUpdates(SentAll(fs));
  }

  lemma EmptyGreedy(round: X.Rounding)
    ensures Greedy(round, []) == Decoded([], [])
  {
  }

  /** Window updates for parsed frames never fail to serialize. */
  lemma UpdatesDefined(streamId: nat, increment: nat)
    requires streamId < TWO31 && increment < MAX_BODY
    ensures WindowUpdates(streamId, increment).Ok?
    ensures WindowUpdates(streamId, increment).value ==
            if streamId % 2 != 0 || increment == 0 then []
            else [WindowUpdate(0, increment).value, WindowUpdate(streamId, increment).value]
  {
    hide SerializeFrame;
    Pow256Values();
    SmallMod(increment, TWO31);
    OneField(L, increment);
    LengthFieldExactlyWhen(TYPE_WINDOW_UPDATE, 0, 0, BE(increment, 4));
    LengthFieldExactlyWhen(TYPE_WINDOW_UPDATE, 0, streamId, BE(increment, 4));
  }
}
