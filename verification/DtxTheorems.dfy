/** Reassembly gives back what was sent on each lane, and `recvMessage` the next message. */
module DtxTheorems {
  import opened Bytes
  import opened Wrappers
  import opened DtxFraming

  // ----- frames on the wire -----

  /** The header's fields fit their widths and its length is the body's; a marker has no body. */
  predicate WellFormed(f: Frame) {
    var h := f.h;
    && h.magic < TWO32 && h.cb < TWO32 && h.fragmentId < 0x1_0000 && h.fragmentCount < 0x1_0000 && h.length < TWO32
    && h.identifier < TWO32 && h.conversationIndex < TWO32 && -TWO31 <= h.channelCode < TWO31 && h.expectsReply < TWO32
    && (if IsMarker(h) then f.body == [] else |f.body| == h.length)
  }

  function FrameBytes(f: Frame): Bytes {
    BuildHeader(f.h) + f.body
  }

  function FramesBytes(fs: seq<Frame>): Bytes {
    if fs == [] then [] else FrameBytes(fs[0]) + FramesBytes(fs[1..])
  }

  lemma HeaderRoundTrip(f: Frame)
    requires WellFormed(f)
    ensures ParseHeader(BuildHeader(f.h)) == f.h
  {
    hide LE, FromLE, Pow256, Signed, Unsigned;
    var h := f.h;
    var b := BuildHeader(h);
    Pow256Values();
    SignedUnsigned(h.channelCode, 4);
    assert b[0..4] == LE(h.magic, 4) && b[4..8] == LE(h.cb, 4) && b[8..10] == LE(h.fragmentId, 2);
    assert b[10..12] == LE(h.fragmentCount, 2) && b[12..16] == LE(h.length, 4) && b[16..20] == LE(h.identifier, 4);
    assert b[20..24] == LE(h.conversationIndex, 4) && b[24..28] == LE(Unsigned(h.channelCode, 4), 4);
    assert b[28..32] == LE(h.expectsReply, 4);
    LERoundTrip(h.magic, 4);
    LERoundTrip(h.cb, 4);
    LERoundTrip(h.fragmentId, 2);
    LERoundTrip(h.fragmentCount, 2);
    LERoundTrip(h.length, 4);
    LERoundTrip(h.identifier, 4);
    LERoundTrip(h.conversationIndex, 4);
    LERoundTrip(Unsigned(h.channelCode, 4), 4);
    LERoundTrip(h.expectsReply, 4);
  }

  /** The front frame of a byte stream is recovered, whatever follows it. */
  lemma FrameInFront(f: Frame, rest: Bytes)
    requires WellFormed(f)
    ensures NextFrame(FrameBytes(f) + rest) == Some(f)
    ensures |FrameBytes(f)| == FrameSize(f) && (FrameBytes(f) + rest)[FrameSize(f)..] == rest
  {
    hide BuildHeader, ParseHeader;
    var b := FrameBytes(f) + rest;
    assert b[..HEADER_SIZE] == BuildHeader(f.h);
    HeaderRoundTrip(f);
    if !IsMarker(f.h) {
      assert b[HEADER_SIZE..HEADER_SIZE + |f.body|] == f.body;
    }
  }

  // ----- lanes -----

  /** Messages of a channel and of its stream (negative codes) are reassembled apart. */
  datatype Lane = Lane(channel: nat, stream: bool)

  function LaneOf(code: int): Lane {
    Lane(Abs(code), code < 0)
  }

  /** The fragments gathered on a lane so far. */
  function Gathered(cs: Channels, l: Lane): Bytes {
    var fr := FragmenterOf(cs, l.channel);
    if l.stream then fr.streamPacketData else fr.packetData
  }

  /** One frame on its own lane: the bytes gathered afterwards and the message completed, if any. */
  function LaneStep(gathered: Bytes, f: Frame): (Bytes, Option<Message>) {
    if IsMarker(f.h) then (gathered, None)
    else if f.h.fragmentId == f.h.fragmentCount - 1 then
      ([], Some(Message(f.h.channelCode, f.h.identifier, f.h.conversationIndex, gathered + f.body)))
    else (gathered + f.body, None)
  }

  predicate QueuesEmpty(cs: Channels) {
    forall c :: c in cs ==> cs[c].messages == []
  }

  /**
   * One frame changes its own lane only, its message is the one its last fragment completed, and every
   * queue is empty again afterwards.
   */
  lemma ProcessOneLane(cs: Channels, f: Frame)
    requires QueuesEmpty(cs)
    ensures var (cs', m) := Process(cs, f);
            && QueuesEmpty(cs')
            && m == LaneStep(Gathered(cs, LaneOf(f.h.channelCode)), f).1
            && forall l :: Gathered(cs', l) == if l == LaneOf(f.h.channelCode) then LaneStep(Gathered(cs, l), f).0
                else Gathered(cs, l)
  {
    var channel := Abs(f.h.channelCode);
    var fr := FragmenterOf(cs, channel);
    var added := AddFragment(fr, f.h, f.body);
    assert fr.messages == [];
    if !IsMarker(f.h) && f.h.fragmentId == f.h.fragmentCount - 1 {
      assert |added.messages| == 1 && added.messages[1..] == [];
    }
    forall l: Lane
      ensures var (cs', m) := Process(cs, f);
              Gathered(cs', l) == if l == LaneOf(f.h.channelCode) then LaneStep(Gathered(cs, l), f).0
                  else Gathered(cs, l)
    {
      if l.channel == channel && l.stream == (f.h.channelCode < 0) {
        assert l == LaneOf(f.h.channelCode);
      }
    }
  }

  // ----- whole streams -----

  /** All messages completed by a list of frames, and the channels afterwards. */
  function Outputs(cs: Channels, fs: seq<Frame>): (seq<Message>, Channels) {
    if fs == [] then ([], cs)
    else
      var (ms, cs1) := Outputs(cs, fs[..|fs| - 1]);
      var (cs2, m) := Process(cs1, fs[|fs| - 1]);
      (if m.Some? then ms + [m.value] else ms, cs2)
  }

  function Project(fs: seq<Frame>, l: Lane): seq<Frame> {
    if fs == [] then []
    else Project(fs[..|fs| - 1], l) + (if LaneOf(fs[|fs| - 1].h.channelCode) == l then [fs[|fs| - 1]] else [])
  }

  function OnLane(ms: seq<Message>, l: Lane): seq<Message> {
    if ms == [] then []
    else OnLane(ms[..|ms| - 1], l) + (if LaneOf(ms[|ms| - 1].channelCode) == l then [ms[|ms| - 1]] else [])
  }

  function LaneRun(gathered: Bytes, fs: seq<Frame>): (seq<Message>, Bytes) {
    if fs == [] then ([], gathered)
    else
      var (ms, g1) := LaneRun(gathered, fs[..|fs| - 1]);
      var (g2, m) := LaneStep(g1, fs[|fs| - 1]);
      (if m.Some? then ms + [m.value] else ms, g2)
  }

  /** However lanes interleave, each lane's messages are those its own frames give. */
  lemma {:induction false} LanesApart(cs: Channels, fs: seq<Frame>, l: Lane)
    requires QueuesEmpty(cs)
    ensures QueuesEmpty(Outputs(cs, fs).1)
    ensures OnLane(Outputs(cs, fs).0, l) == LaneRun(Gathered(cs, l), Project(fs, l)).0
    ensures Gathered(Outputs(cs, fs).1, l) == LaneRun(Gathered(cs, l), Project(fs, l)).1
  {
    hide Process, LaneStep, Gathered, QueuesEmpty;
    if fs != [] {
      var init, last := fs[..|fs| - 1], fs[|fs| - 1];
      LanesApart(cs, init, l);
      var cs1 := Outputs(cs, init).1;
      ProcessOneLane(cs1, last);
      MessageLane(Gathered(cs1, LaneOf(last.h.channelCode)), last);
      var ms := Outputs(cs, init).0;
      var m := Process(cs1, last).1;
      if m.Some? {
        assert (ms + [m.value])[..|ms|] == ms;
      }
      var own := Project(init, l);
      if LaneOf(last.h.channelCode) == l {
        assert (own + [last])[..|own|] == own;
      } else {
        assert own + [] == own;
      }
    }
  }

  lemma MessageLane(gathered: Bytes, f: Frame)
    ensures var m := LaneStep(gathered, f).1; m.Some? ==> LaneOf(m.value.channelCode) == LaneOf(f.h.channelCode)
  {
  }

  // ----- what was sent -----

  /** A message to send: one part in a single frame, or a marker and the parts in order. */
  datatype Sent = Sent(channelCode: int, identifier: nat, conversationIndex: nat, parts: seq<Bytes>)

  function SentHeader(m: Sent, id: nat, count: nat, length: nat): Header {
    Header(0x1f3d_5b79, HEADER_SIZE, id, count, length, m.identifier, m.conversationIndex, m.channelCode, 0)
  }

  /** The first `n` part frames of a multi-fragment message. */
  function PartFrames(m: Sent, n: nat): seq<Frame>
    requires n <= |m.parts|
  {
    if n == 0 then []
    else PartFrames(m, n - 1) + [Frame(SentHeader(m, n, |m.parts| + 1, |m.parts[n - 1]|), m.parts[n - 1])]
  }

  function SentFrames(m: Sent): seq<Frame>
    requires m.parts != []
  {
    if |m.parts| == 1 then [Frame(SentHeader(m, 0, 1, |m.parts[0]|), m.parts[0])]
    else [Frame(SentHeader(m, 0, |m.parts| + 1, |Flatten(m.parts)|), [])] + PartFrames(m, |m.parts|)
  }

  function AllSent(ms: seq<Sent>): seq<Frame>
    requires forall m :: m in ms ==> m.parts != []
  {
    if ms == [] then [] else AllSent(ms[..|ms| - 1]) + SentFrames(ms[|ms| - 1])
  }

  function AsReceived(m: Sent): Message {
    Message(m.channelCode, m.identifier, m.conversationIndex, Flatten(m.parts))
  }

  function AllReceived(ms: seq<Sent>): (r: seq<Message>)
    ensures |r| == |ms| && forall i :: 0 <= i < |r| ==> r[i] == AsReceived(ms[i])
  {
    seq(|ms|, i requires 0 <= i < |ms| => AsReceived(ms[i]))
  }

  lemma {:induction false} LaneRunAppend(g: Bytes, a: seq<Frame>, b: seq<Frame>)
    ensures var (ms, g1) := LaneRun(g, a); var (ns, g2) := LaneRun(g1, b); LaneRun(g, a + b) == (ms + ns, g2)
  {
    hide LaneStep;
    var (ms, g1) := LaneRun(g, a);
    if b == [] {
      assert a + b == a && ms + [] == ms;
    } else {
      LaneRunAppend(g, a, b[..|b| - 1]);
      assert (a + b)[..|a + b| - 1] == a + b[..|b| - 1];
      var (ns, g2) := LaneRun(g1, b[..|b| - 1]);
      var m := LaneStep(g2, b[|b| - 1]).1;
      if m.Some? {
        assert (ms + ns) + [m.value] == ms + (ns + [m.value]);
      }
    }
  }

  lemma {:induction false} PartsGathered(m: Sent, n: nat)
    requires n < |m.parts| && |m.parts| > 1
    ensures LaneRun([], PartFrames(m, n)) == ([], Flatten(m.parts[..n]))
  {
    if n == 0 {
      assert m.parts[..0] == [];
    } else {
      PartsGathered(m, n - 1);
      var fs := PartFrames(m, n);
      assert fs[..|fs| - 1] == PartFrames(m, n - 1);
      assert m.parts[..n][..n - 1] == m.parts[..n - 1];
    }
  }

  /** The frames of one message complete it and leave nothing behind. */
  lemma OneSent(m: Sent)
    requires m.parts != []
    ensures LaneRun([], SentFrames(m)) == ([AsReceived(m)], [])
  {
    hide LaneStep;
    var n := |m.parts|;
    if n == 1 {
      SingleStep(m);
      LaneRunSingle([], SentFrames(m)[0]);
    } else {
      var marker := Frame(SentHeader(m, 0, n + 1, |Flatten(m.parts)|), []);
      var last := Frame(SentHeader(m, n, n + 1, |m.parts[n - 1]|), m.parts[n - 1]);
      MarkerStep(marker);
      LaneRunSingle([], marker);
      PartsGathered(m, n - 1);
      LaneRunAppend([], [marker], PartFrames(m, n));
      var fs := PartFrames(m, n);
      assert fs[..|fs| - 1] == PartFrames(m, n - 1) && fs[|fs| - 1] == last;
      LastStep(m, last);
      assert [] + [AsReceived(m)] == [AsReceived(m)];
    }
  }

  lemma SingleStep(m: Sent)
    requires |m.parts| == 1
    ensures LaneStep([], Frame(SentHeader(m, 0, 1, |m.parts[0]|), m.parts[0])) == ([], Some(AsReceived(m)))
  {
    assert m.parts[..0] == [] && Flatten(m.parts) == [] + m.parts[0];
  }

  lemma MarkerStep(f: Frame)
    requires IsMarker(f.h)
    ensures LaneStep([], f) == ([], None)
  {
  }

  lemma LaneRunSingle(g: Bytes, f: Frame)
    ensures var (g2, m) := LaneStep(g, f); LaneRun(g, [f]) == (if m.Some? then [m.value] else [], g2)
  {
    hide LaneStep;
    var one := [f];
    var m := LaneStep(g, f).1;
    assert m.Some? ==> [] + [m.value] == [m.value];
    assert one[..0] == [];
    assert LaneRun(g, one[..0]) == ([], g);
  }

  lemma LastStep(m: Sent, last: Frame)
    requires |m.parts| > 1 && last == Frame(SentHeader(m, |m.parts|, |m.parts| + 1, |m.parts[|m.parts| - 1]|),
                                            m.parts[|m.parts| - 1])
    ensures LaneStep(Flatten(m.parts[..|m.parts| - 1]), last) == ([], Some(AsReceived(m)))
  {
  }

  lemma {:induction false} AllSentRun(ms: seq<Sent>)
    requires forall m :: m in ms ==> m.parts != []
    ensures LaneRun([], AllSent(ms)) == (AllReceived(ms), [])
  {
    hide LaneRun, SentFrames, AsReceived;
    if ms == [] {
      NoFrames();
    } else {
      var init, last := ms[..|ms| - 1], ms[|ms| - 1];
      AllSentRun(init);
      OneSent(last);
      LaneRunAppend([], AllSent(init), SentFrames(last));
      assert AllReceived(ms) == AllReceived(init) + [AsReceived(last)];
    }
  }

  lemma NoFrames()
    ensures LaneRun([], []) == ([], [])
  {
  }

  /**
   * Reassembly: for any interleaving of lanes in which each lane carries its messages' frames in order,
   * each lane's reassembled messages are exactly the messages sent on it, and nothing is left over.
   */
  lemma ReassembledExactly(fs: seq<Frame>, l: Lane, ms: seq<Sent>)
    requires forall m :: m in ms ==> m.parts != []
    requires Project(fs, l) == AllSent(ms)
    ensures OnLane(Outputs(map[], fs).0, l) == AllReceived(ms)
    ensures Gathered(Outputs(map[], fs).1, l) == []
  {
    LanesApart(map[], fs, l);
    AllSentRun(ms);
  }

  // ----- one message at a time -----

  /** The three ways a call can end, after `fragments` frames that completed nothing. */
  ghost predicate ReceivedFrom(cs: Channels, fs: seq<Frame>, tail: Bytes, fragments: nat, r: Received) {
    match r
    case Got(m, cs', rest) =>
      exists k :: 0 < k <= |fs| && rest == FramesBytes(fs[k..]) + tail
                  && Outputs(cs, fs[..k]) == ([m], cs') && QueuesEmpty(cs')
    case Awaiting(cs', rest, n) => rest == tail && Outputs(cs, fs) == ([], cs') && n == fragments + |fs|
        && QueuesEmpty(cs')
    case TooMany =>
      fragments < MAX_FRAGMENTS ==>
        MAX_FRAGMENTS - fragments <= |fs| && Outputs(cs, fs[..MAX_FRAGMENTS - fragments]).0 == []
  }

  lemma NextInFront(fs: seq<Frame>, tail: Bytes)
    requires fs != [] && WellFormed(fs[0])
    ensures var b := FramesBytes(fs) + tail;
            NextFrame(b) == Some(fs[0]) && FrameSize(fs[0]) <= |b|
                && b[FrameSize(fs[0])..] == FramesBytes(fs[1..]) + tail
  {
    hide NextFrame, WellFormed;
    var f, rest := fs[0], FramesBytes(fs[1..]) + tail;
    assert FramesBytes(fs) + tail == FrameBytes(f) + rest;
    FrameInFront(f, rest);
  }

  /**
   * `recvMessage` returns the message completed by the last frame it consumed, after frames that
   * completed nothing, and leaves every queue empty.
   */
  lemma {:induction false} ReceiveIsNextOutput(cs: Channels, fs: seq<Frame>, tail: Bytes, fragments: nat)
    requires QueuesEmpty(cs) && forall f :: f in fs ==> WellFormed(f)
    requires NextFrame(tail).None?
    ensures ReceivedFrom(cs, fs, tail, fragments, Receive(cs, FramesBytes(fs) + tail, fragments))
    decreases |fs|
  {
    hide Process, NextFrame, QueuesEmpty, WellFormed, ReceivedFrom, FramesBytes, FrameSize;
    if fragments >= MAX_FRAGMENTS {
      TooManyAlready(cs, fs, tail, fragments);
    } else if fs == [] {
      NothingYet(cs, tail, fragments);
    } else {
      NextInFront(fs, tail);
      ProcessOneLane(cs, fs[0]);
      if Process(cs, fs[0]).1.Some? {
        FirstCompletes(cs, fs, tail, fragments);
      } else {
        ReceiveIsNextOutput(Process(cs, fs[0]).0, fs[1..], tail, fragments + 1);
        SilentFront(cs, fs, tail, fragments);
      }
    }
  }

  lemma TooManyAlready(cs: Channels, fs: seq<Frame>, tail: Bytes, fragments: nat)
    requires fragments >= MAX_FRAGMENTS
    ensures ReceivedFrom(cs, fs, tail, fragments, TooMany)
  {
  }

  lemma NothingYet(cs: Channels, tail: Bytes, fragments: nat)
    requires QueuesEmpty(cs)
    ensures ReceivedFrom(cs, [], tail, fragments, Awaiting(cs, tail, fragments))
    ensures FramesBytes([]) + tail == tail
  {
    NoOutputs(cs);
    assert [] + tail == tail;
  }

  lemma FirstCompletes(cs: Channels, fs: seq<Frame>, tail: Bytes, fragments: nat)
    requires fs != [] && Process(cs, fs[0]).1.Some? && QueuesEmpty(Process(cs, fs[0]).0)
    ensures var (cs1, m) := Process(cs, fs[0]);
            ReceivedFrom(cs, fs, tail, fragments, Got(m.value, cs1, FramesBytes(fs[1..]) + tail))
  {
    hide Process, QueuesEmpty, Outputs, FramesBytes;
    var (cs1, m) := Process(cs, fs[0]);
    OutputsFront(cs, fs, 1);
    NoOutputs(cs1);
    var k := 1;
    assert fs[1..k] == [] && [m.value] + [] == [m.value];
    assert Outputs(cs, fs[..k]) == ([m.value], cs1);
  }

  lemma NoOutputs(cs: Channels)
    ensures Outputs(cs, []) == ([], cs)
  {
  }

  /** A first frame that completes nothing only moves the counts by one. */
  lemma SilentFront(cs: Channels, fs: seq<Frame>, tail: Bytes, fragments: nat)
    requires fs != [] && fragments < MAX_FRAGMENTS && Process(cs, fs[0]).1.None?
    requires var cs1 := Process(cs, fs[0]).0; var r := Receive(cs1, FramesBytes(fs[1..]) + tail, fragments + 1);
             ReceivedFrom(cs1, fs[1..], tail, fragments + 1, r)
    ensures var cs1 := Process(cs, fs[0]).0; var r := Receive(cs1, FramesBytes(fs[1..]) + tail, fragments + 1);
            ReceivedFrom(cs, fs, tail, fragments, r)
  {
    hide Process, NextFrame, QueuesEmpty, Outputs, Receive, FramesBytes;
    var cs1 := Process(cs, fs[0]).0;
    var gs := fs[1..];
    match Receive(cs1, FramesBytes(gs) + tail, fragments + 1)
    case Got(n, cs', left) =>
      var k :| 0 < k <= |gs| && left == FramesBytes(gs[k..]) + tail && Outputs(cs1, gs[..k]) == ([n], cs')
          && QueuesEmpty(cs');
      SilentOutputs(cs, fs, k);
      var j := k + 1;
      assert gs[k..] == fs[j..];
      assert left == FramesBytes(fs[j..]) + tail && Outputs(cs, fs[..j]) == ([n], cs');
    case Awaiting(cs', left, n) =>
      SilentOutputs(cs, fs, |gs|);
      assert fs[..|fs|] == fs && gs[..|gs|] == gs;
    case TooMany =>
      if fragments + 1 < MAX_FRAGMENTS {
        SilentOutputs(cs, fs, MAX_FRAGMENTS - fragments - 1);
      } else {
        SilentOutputs(cs, fs, 0);
        NoOutputs(cs1);
        assert gs[..0] == [];
      }
  }

  lemma SilentOutputs(cs: Channels, fs: seq<Frame>, k: nat)
    requires k < |fs| && Process(cs, fs[0]).1.None?
    ensures Outputs(cs, fs[..k + 1]) == Outputs(Process(cs, fs[0]).0, fs[1..][..k])
  {
    hide Process, Outputs;
    OutputsFront(cs, fs, k + 1);
    assert fs[1..][..k] == fs[1..k + 1];
    var ms := Outputs(Process(cs, fs[0]).0, fs[1..k + 1]).0;
    assert [] + ms == ms;
  }

  /** The outputs of a list of frames, the first frame taken apart. */
  lemma {:induction false} OutputsFront(cs: Channels, fs: seq<Frame>, k: nat)
    requires 0 < k <= |fs|
    ensures var (cs1, m) := Process(cs, fs[0]);
            var (ms, cs2) := Outputs(cs1, fs[1..k]);
            Outputs(cs, fs[..k]) == ((if m.Some? then [m.value] else []) + ms, cs2)
  {
    hide Process;
    var (cs1, m) := Process(cs, fs[0]);
    var head := if m.Some? then [m.value] else [];
    var now := fs[..k];
    if k == 1 {
      assert now[..0] == [] && fs[1..1] == [];
      assert Outputs(cs, now[..0]) == ([], cs);
      assert [] + head == head && head + [] == head;
    } else {
      OutputsFront(cs, fs, k - 1);
      assert now[..k - 1] == fs[..k - 1];
      assert fs[1..k][..k - 2] == fs[1..k - 1];
      var (ms, cs2) := Outputs(cs1, fs[1..k - 1]);
      var last := Process(cs2, fs[k - 1]).1;
      if last.Some? {
        assert head + (ms + [last.value]) == (head + ms) + [last.value];
      }
    }
  }

  // ----- bytes that arrive later -----

  /** The frame at the front does not depend on what follows it. */
  lemma FrontStays(a: Bytes, b: Bytes)
    requires NextFrame(a).Some?
    ensures NextFrame(a + b) == NextFrame(a)
    ensures FrameSize(NextFrame(a).value) <= |a|
    ensures (a + b)[FrameSize(NextFrame(a).value)..] == a[FrameSize(NextFrame(a).value)..] + b
  {
    hide ParseHeader;
    NextFrameFits(a);
    assert (a + b)[..HEADER_SIZE] == a[..HEADER_SIZE];
    var h := ParseHeader(a[..HEADER_SIZE]);
    if !IsMarker(h) {
      assert (a + b)[HEADER_SIZE..HEADER_SIZE + h.length] == a[HEADER_SIZE..HEADER_SIZE + h.length];
    }
  }

  /** What a call gives when more bytes arrive. */
  function Resumed(r: Received, b: Bytes): Received {
    match r
    case Got(m, cs, rest) => Got(m, cs, rest + b)
    case TooMany => TooMany
    case Awaiting(cs, rest, n) => Receive(cs, rest + b, n)
  }

  /**
   * Chunk independence: `recvMessage` on all the bytes at once is `recvMessage` on the first of them,
   * which, left waiting, goes on with the others, and, done, leaves them to the next call.
   */
  lemma {:induction false} ReceiveMore(cs: Channels, a: Bytes, b: Bytes, fragments: nat)
    ensures Receive(cs, a + b, fragments) == Resumed(Receive(cs, a, fragments), b)
    decreases |a|
  {
    hide Process, NextFrame;
    if fragments < MAX_FRAGMENTS && NextFrame(a).Some? {
      var f := NextFrame(a).value;
      FrontStays(a, b);
      ReceiveMore(Process(cs, f).0, a[FrameSize(f)..], b, fragments + 1);
    }
  }

  /** One call fed chunk by chunk, for as long as it waits. */
  function ReceiveChunks(r: Received, chunks: seq<Bytes>): Received {
    if chunks == [] then r else Resumed(ReceiveChunks(r, chunks[..|chunks| - 1]), chunks[|chunks| - 1])
  }

  lemma {:induction false} ReceiveChunksIndependent(cs: Channels, chunks: seq<Bytes>)
    ensures ReceiveChunks(Receive(cs, [], 0), chunks) == Receive(cs, Flatten(chunks), 0)
  {
    hide Receive;
    if chunks == [] {
      NoChunks();
    } else {
      ReceiveChunksIndependent(cs, chunks[..|chunks| - 1]);
      ReceiveMore(cs, Flatten(chunks[..|chunks| - 1]), chunks[|chunks| - 1], 0);
    }
  }

  lemma NoChunks()
    ensures Flatten<Byte>([]) == []
  {
  }
}
