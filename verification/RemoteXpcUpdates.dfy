/** HTTP/2 frames byte by byte, and that the window updates give back what every stream received. */
module RemoteXpcUpdates {
  import opened Bytes
  import opened Wrappers
  import opened Http2Format
  import opened RemoteXpcSpec
  import opened RemoteXpcTheorems
  import H = Http2Chunking
  import O = ByteOrder
  import X = XpcFormat

  // ----- window updates -----

  /** A WINDOW_UPDATE frame: 4 bytes of body, type 8, no flags, the stream, the increment. */
  predicate IsUpdate(d: Bytes, stream: nat, increment: nat) {
    && |d| == 13 && d[0] == 0 && d[1] == 0 && d[2] == 4 && d[3] == 8 && d[4] == 0
    && FromBE(d[5..9]) == stream && FromBE(d[9..13]) == increment
  }

  lemma UpdateBytes(stream: nat, increment: nat)
    requires stream < 0x8000_0000 && increment < 0x8000_0000
    ensures WindowUpdate(stream, increment).Ok? && IsUpdate(WindowUpdate(stream, increment).value, stream, increment)
  {
    hide BE, FromBE, SerializeFrame, Packed;
    Pow256Values();
    SmallMod(increment, TWO31);
    SmallMod(stream, TWO31);
    OneField(L, increment);
    BERoundTrip(increment, 4);
    BERoundTrip(stream, 4);
    LengthFieldExactlyWhen(8, 0, stream, BE(increment, 4));
    var d := SerializeFrame(8, 0, stream, BE(increment, 4)).value;
    O.ThreeBytes(d[0..3]);
    assert d[9..13] == d[9..];
    LengthFour(d[0], d[1], d[2]);
  }

  lemma LengthFour(a: Byte, b: Byte, c: Byte)
    ensures 0x1_0000 * a as int + 0x100 * b as int + c as int == 4 ==> a == 0 && b == 0 && c == 4
  {
  }

  /** DATA on an even stream is answered on stream 0 and on its own; DATA on an odd one, or without a body, is not. */
  lemma UpdatesBytes(stream: nat, increment: nat)
    requires stream < 0x8000_0000 && increment < 0x8000_0000
    ensures WindowUpdates(stream, increment).Ok?
    ensures var us := WindowUpdates(stream, increment).value;
            if stream % 2 == 0 && increment > 0 then
              |us| == 2 && IsUpdate(us[0], 0, increment) && IsUpdate(us[1], stream, increment)
            else us == []
  {
    hide WindowUpdate, IsUpdate;
    UpdateBytes(0, increment);
    UpdateBytes(stream, increment);
  }

  // ----- what is granted -----

  /** The window given to stream `k` by a list of frames, read off their bytes. */
  function Granted(frames: seq<Bytes>, k: nat): nat {
    if frames == [] then 0
    else
      var last := frames[|frames| - 1];
      Granted(frames[..|frames| - 1], k)
      + (if |last| == 13 && FromBE(last[5..9]) == k then FromBE(last[9..13]) else 0)
  }

  /** The DATA bodies that arrived on stream `k`, padding included, and on all even streams. */
  function ReceivedOn(fs: seq<Frame>, k: nat): nat {
    if fs == [] then 0
    else
      var last := fs[|fs| - 1];
      ReceivedOn(fs[..|fs| - 1], k) + (if last.Data? && last.streamId == k then last.bodyLen else 0)
  }

  function ReceivedOnEven(fs: seq<Frame>): nat {
    if fs == [] then 0
    else
      var last := fs[|fs| - 1];
      ReceivedOnEven(fs[..|fs| - 1]) + (if last.Data? && last.streamId % 2 == 0 then last.bodyLen else 0)
  }

  /** Stream numbers and lengths a frame header can hold. */
  predicate InRange(fs: seq<Frame>) {
    forall f :: f in fs && f.Data? ==> f.streamId < 0x8000_0000 && f.bodyLen < 0x100_0000
  }

  lemma {:induction false} GrantedMore(a: seq<Bytes>, b: seq<Bytes>, k: nat)
    ensures Granted(a + b, k) == Granted(a, k) + Granted(b, k)
  {
    if b == [] {
      assert a + b == a;
    } else {
      assert (a + b)[..|a + b| - 1] == a + b[..|b| - 1];
      GrantedMore(a, b[..|b| - 1], k);
    }
  }

  lemma GrantedPair(x: Bytes, y: Bytes, k: nat, stream: nat, increment: nat)
    requires IsUpdate(x, 0, increment) && IsUpdate(y, stream, increment)
    ensures Granted([x, y], k) == (if k == 0 then increment else 0) + (if k == stream then increment else 0)
  {
    hide FromBE;
    assert [x, y][..1] == [x] && [x][..0] == [];
    assert Granted([x], k) == if k == 0 then increment else 0;
  }

  /** What one frame is answered with. */
  lemma GrantedFor(f: Frame, k: nat)
    requires f.Data? ==> f.streamId < 0x8000_0000 && f.bodyLen < 0x100_0000
    ensures Granted(Updates(f), k) ==
            if f.Data? && f.streamId % 2 == 0 then
              (if k == 0 then f.bodyLen else 0) + (if k == f.streamId then f.bodyLen else 0)
            else 0
  {
    hide WindowUpdates, IsUpdate;
    if f.Data? {
      UpdatesBytes(f.streamId, f.bodyLen);
      var us := Updates(f);
      if f.streamId % 2 == 0 && f.bodyLen > 0 {
        assert us == [us[0], us[1]];
        GrantedPair(us[0], us[1], k, f.streamId, f.bodyLen);
      }
    }
  }

  /**
   * Flow control gives back what came: stream 0 gets the DATA bodies of all even streams, every other even
   * stream its own, odd streams nothing; bodies on stream 0 itself are given back twice.
   */
  lemma {:induction false} UpdatesGiveBack(fs: seq<Frame>, k: nat)
    requires InRange(fs)
    ensures Granted(AllUpdates(fs), 0) == ReceivedOnEven(fs) + ReceivedOn(fs, 0)
    ensures k > 0 ==> Granted(AllUpdates(fs), k) == if k % 2 == 0 then ReceivedOn(fs, k) else 0
  {
    hide Updates;
    if fs != [] {
      var init, last := fs[..|fs| - 1], fs[|fs| - 1];
      assert last in fs;
      UpdatesGiveBack(init, k);
      GrantedFor(last, 0);
      GrantedFor(last, k);
      GrantedMore(AllUpdates(init), Updates(last), 0);
      GrantedMore(AllUpdates(init), Updates(last), k);
    }
  }

  lemma SentInRange(fs: seq<DataFrame>)
    requires forall f :: f in fs ==> Sendable(f)
    ensures InRange(SentAll(fs))
  {
    forall g | g in SentAll(fs) && g.Data?
      ensures g.streamId < 0x8000_0000 && g.bodyLen < 0x100_0000
    {
      var i :| 0 <= i < |fs| && SentAll(fs)[i] == g;
      assert fs[i] in fs && Sendable(fs[i]);
    }
  }

  /** On the whole path: the increments written are the DATA bodies that were sent, stream by stream. */
  lemma EndToEndUpdates(round: X.Rounding, ms: seq<Outgoing>, fs: seq<DataFrame>, chunks: seq<Bytes>, k: nat)
    requires forall m :: m in ms ==> Encodable(m)
    requires forall f :: f in fs ==> Sendable(f) && Serialize(f).Ok?
    requires Payload(SentAll(fs)) == EncodeAll(ms)
    requires Flatten(chunks) == SerializeAll(fs)
    ensures var written := HandleChunks(round, FRESH, chunks).written;
            && Granted(written, 0) == ReceivedOnEven(SentAll(fs)) + ReceivedOn(SentAll(fs), 0)
            && (k > 0 ==> Granted(written, k) == if k % 2 == 0 then ReceivedOn(SentAll(fs), k) else 0)
  {
    hide HandleChunks, Granted, ReceivedOn, ReceivedOnEven, Payload, EncodeAll, Serialize, Sendable, Encodable, InRange;
    EndToEnd(round, ms, fs, chunks);
    SentInRange(fs);
    UpdatesGiveBack(SentAll(fs), k);
  }

  /** Every frame the parser cuts is in that range, so the same holds of any bytes received. */
  lemma {:induction false} DrainedInRange(b: Bytes)
    ensures InRange(Drain(b).frames)
    decreases |b|
  {
    hide ParseFrame, FromBE;
    if Complete(b) {
      var total := FRAME_HEADER_SIZE + FrameLength(b);
      assert b[..total][0..3] == b[0..3];
      if ParseFrame(b[..total]).Ok? {
        if ParseFrame(b[..total]).value.Data? {
          ParsedInRange(b[..total]);
        }
        DrainedInRange(b[total..]);
      }
    }
  }

  lemma ParsedInRange(b: Bytes)
    requires Complete(b) && ParseFrame(b).Ok? && ParseFrame(b).value.Data?
    ensures ParseFrame(b).value.streamId < 0x8000_0000 && ParseFrame(b).value.bodyLen < 0x100_0000
  {
    hide FromBE, StripPadding;
    O.ThreeBytes(b[0..3]);
  }

  // ----- DATA frames -----

  /** A DATA frame: length, type 0, flag 1 for the end of the stream and 8 for padding, stream, body. */
  lemma DataBytes(f: DataFrame)
    requires Sendable(f)
    ensures Serialize(f).Ok?
    ensures var d := Serialize(f).value;
            && |d| >= 9 && 0x1_0000 * d[0] as int + 0x100 * d[1] as int + d[2] as int == |d| - 9
            && d[3] == 0 && d[4] == (if f.endStream then 1 else 0) + (if f.padded then 8 else 0)
            && FromBE(d[5..9]) == f.streamId % 0x8000_0000
            && d[9..] == (if f.padded then [f.padLength] else []) + f.data + Zeros(f.padLength)
  {
    hide BE, FromBE, SerializeFrame, SerializeBody, Packed;
    BodySerialized(f);
    var body := SerializeBody(f).value;
    var flags: nat := (if f.endStream then FLAG_END_STREAM else 0) + (if f.padded then FLAG_PADDED else 0);
    LengthFieldExactlyWhen(TYPE_DATA, flags, f.streamId, body);
    Pow256Values();
    BERoundTrip(f.streamId % TWO31, 4);
    var d := Serialize(f).value;
    O.ThreeBytes(d[0..3]);
    BodyLength(f);
  }

  lemma BodyLength(f: DataFrame)
    requires Sendable(f)
    ensures SerializeBody(f).Ok? && |SerializeBody(f).value| < MAX_BODY
  {
    BodySerialized(f);
  }

  /** How any complete frame is read: other types are skipped, padding is cut off when flag 8 is set. */
  lemma FrameRead(b: Bytes)
    requires |b| >= 9
    ensures FrameLength(b) == 0x1_0000 * b[0] as int + 0x100 * b[1] as int + b[2] as int
    ensures Complete(b) <==> |b| >= 9 + FrameLength(b)
    ensures Complete(b) && b[3] != 0 ==> ParseFrame(b) == Ok(Other)
    ensures Complete(b) && b[3] == 0 && (b[4] / 8) % 2 == 0 ==>
              var n := FrameLength(b); ParseFrame(b) == Ok(Data(FromBE(b[5..9]) % 0x8000_0000, b[9..9 + n], n))
    ensures Complete(b) && b[3] == 0 && (b[4] / 8) % 2 == 1 ==>
              var n := FrameLength(b);
              if n == 0 || b[9] >= n then ParseFrame(b).Err?
              else ParseFrame(b) == Ok(Data(FromBE(b[5..9]) % 0x8000_0000, b[10..9 + n - b[9]], n))
  {
    hide FromBE;
    O.ThreeBytes(b[0..3]);
    if Complete(b) && FrameLength(b) > 0 {
      var n := FrameLength(b);
      var body := b[9..9 + n];
      assert body[0] == b[9];
      if b[9] < n {
        SameSlice(b, n, b[9]);
      }
    }
  }

  lemma SameSlice(b: Bytes, n: nat, pad: nat)
    requires 9 + n <= |b| && pad < n
    ensures b[9..9 + n][1..n - pad] == b[10..9 + n - pad]
  {
    var x, y := b[9..9 + n][1..n - pad], b[10..9 + n - pad];
    assert |x| == |y| && forall i :: 0 <= i < |x| ==> x[i] == y[i];
  }

  // ----- a frame that is refused -----

  /** A DATA frame stands at a frame boundary of `s`, says that it is padded, and has no room for its padding. */
  predicate RefusedAt(s: Bytes, at: nat) {
    && at <= |s| && H.FrameStart(s, at) && Complete(s[at..])
    && s[at + 3] == 0 && (s[at + 4] / 8) % 2 == 1 && (FrameLength(s[at..]) == 0 || s[at + 9] >= FrameLength(s[at..]))
  }

  lemma RefusedIs(s: Bytes, at: nat)
    ensures RefusedAt(s, at) <==> H.BadFrameAt(s, at)
  {
    hide FrameLength, H.FrameStart;
  }

  /** A chunk that completes such a frame gives one error and nothing else, and every other chunk gives no error. */
  lemma ErrorExactlyWhen(round: X.Rounding, t: Transport, chunk: Bytes)
    ensures var t1 := HandleData(round, t, chunk);
            if exists at :: 0 <= at && RefusedAt(t.buffer + chunk, at) then
              t1.emitted == t.emitted + [ErrorEvent] && t1.written == t.written && t1.pending == t.pending
            else t.emitted <= t1.emitted && forall i :: |t.emitted| <= i < |t1.emitted| ==> t1.emitted[i].MessageEvent?
  {
    hide RefusedAt, H.BadFrameAt, Drain, HandleFrames;
    var s := t.buffer + chunk;
    H.FailsExactlyWhen(s);
    forall at: nat
      ensures RefusedAt(s, at) <==> H.BadFrameAt(s, at)
    {
      RefusedIs(s, at);
    }
    MessagesOnly(round, t.(buffer := Drain(s).rest), Drain(s).frames);
  }

  lemma {:induction false} MessagesOnly(round: X.Rounding, t: Transport, fs: seq<Frame>)
    ensures var t1 := HandleFrames(round, t, fs);
            t.emitted <= t1.emitted && forall i :: |t.emitted| <= i < |t1.emitted| ==> t1.emitted[i].MessageEvent?
  {
    hide Greedy, Updates;
    if fs != [] {
      MessagesOnly(round, t, fs[..|fs| - 1]);
    }
  }
}
