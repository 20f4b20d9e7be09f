/** DTX frames in their own bytes, and what `recvMessage` makes of them. */
module DtxWire {
  import opened Bytes
  import opened Wrappers
  import opened DtxFraming
  import opened DtxTheorems
  import O = ByteOrder

  // ----- the header -----

  predicate Two(b: Bytes, at: nat, n: int) {
    at + 2 <= |b| && n == b[at] as int + 0x100 * b[at + 1] as int
  }

  predicate Four(b: Bytes, at: nat, n: int) {
    at + 4 <= |b|
    && n == b[at] as int + 0x100 * b[at + 1] as int + 0x1_0000 * b[at + 2] as int + 0x100_0000 * b[at + 3] as int
  }

  /** 32 bytes, low byte first; only the channel code is signed. */
  predicate IsHeader(b: Bytes, h: Header) {
    && |b| == 32 && Four(b, 0, h.magic) && Four(b, 4, h.cb) && Two(b, 8, h.fragmentId) && Two(b, 10, h.fragmentCount)
    && Four(b, 12, h.length) && Four(b, 16, h.identifier) && Four(b, 20, h.conversationIndex)
    && Four(b, 24, if b[27] < 0x80 then h.channelCode else h.channelCode + 0x1_0000_0000) && Four(b, 28, h.expectsReply)
  }

  lemma TwoRead(b: Bytes, at: nat)
    requires at + 2 <= |b|
    ensures Two(b, at, FromLE(b[at..at + 2]))
  {
    O.TwoBytes(b[at..at + 2]);
  }

  lemma FourRead(b: Bytes, at: nat)
    requires at + 4 <= |b|
    ensures Four(b, at, FromLE(b[at..at + 4])) && FromLE(b[at..at + 4]) < TWO32
    ensures FromLE(b[at..at + 4]) >= TWO31 <==> b[at + 3] >= 0x80
  {
    O.FourBytes(b[at..at + 4]);
  }

  lemma SignedRead(n: nat)
    requires n < TWO32
    ensures Signed(n, 4) == if n >= TWO31 then n - TWO32 else n
  {
    Pow256Values();
    ModUnique(n, TWO32, 0, n);
  }

  /** Any 32 bytes are read so. */
  lemma HeaderRead(b: Bytes)
    requires |b| == 32
    ensures IsHeader(b, ParseHeader(b))
  {
    hide FromLE, Signed, Two, Four;
    FourRead(b, 0);
    FourRead(b, 4);
    TwoRead(b, 8);
    TwoRead(b, 10);
    FourRead(b, 12);
    FourRead(b, 16);
    FourRead(b, 20);
    FourRead(b, 24);
    FourRead(b, 28);
    SignedRead(FromLE(b[24..28]));
  }

  /** Every header whose fields fit is written so. */
  lemma HeaderWritten(f: Frame)
    requires WellFormed(f)
    ensures IsHeader(BuildHeader(f.h), f.h)
  {
    hide IsHeader, BuildHeader, ParseHeader;
    HeaderRoundTrip(f);
    HeaderRead(BuildHeader(f.h));
  }

  /** The bytes tell the header. */
  lemma HeaderUnique(b: Bytes, h: Header, g: Header)
    requires IsHeader(b, h) && IsHeader(b, g)
    ensures h == g
  {
  }

  // ----- one frame at a time -----

  /** The frame in front of any bytes: 32 bytes of header, then as many as it says, none behind a marker. */
  lemma FrontFrame(b: Bytes, h: Header)
    requires |b| >= 32 && IsHeader(b[..32], h)
    ensures NextFrame(b) ==
            if h.fragmentCount > 1 && h.fragmentId == 0 then Some(Frame(h, []))
            else if |b| < 32 + h.length then None
            else Some(Frame(h, b[32..32 + h.length]))
  {
    hide IsHeader, ParseHeader;
    HeaderRead(b[..32]);
    HeaderUnique(b[..32], h, ParseHeader(b[..32]));
  }

  lemma NoFrame(b: Bytes)
    requires |b| < 32
    ensures NextFrame(b) == None
  {
  }

  /** The lane of a frame: the channel without its sign, and whether the code is negative. */
  function LaneIn(h: Header): Lane {
    Lane(if h.channelCode < 0 then -h.channelCode else h.channelCode, h.channelCode < 0)
  }

  /** Between two states of the receiver, lane `l` goes to `gathered` and the others stay. */
  ghost predicate OnlyLane(cs: Channels, cs': Channels, l: Lane, gathered: Bytes) {
    QueuesEmpty(cs') && forall k: Lane :: Gathered(cs', k) == if k == l then gathered else Gathered(cs, k)
  }

  /** The marker, a fragment, and the last fragment: what each does to the receiver that meets it. */
  ghost predicate Meets(cs: Channels, h: Header, body: Bytes, rest: Bytes, fragments: nat, r: Received) {
    var before := Gathered(cs, LaneIn(h));
    if h.fragmentCount > 1 && h.fragmentId == 0 then
      exists cs' :: OnlyLane(cs, cs', LaneIn(h), before) && r == Receive(cs', body + rest, fragments + 1)
    else if h.fragmentId + 1 == h.fragmentCount then
      && r.Got? && r.rest == rest && OnlyLane(cs, r.cs, LaneIn(h), [])
      && r.m == Message(h.channelCode, h.identifier, h.conversationIndex, before + body)
    else
      exists cs' :: OnlyLane(cs, cs', LaneIn(h), before + body) && r == Receive(cs', rest, fragments + 1)
  }

  /**
   * The receiver on any bytes that begin with a frame.  A marker is dropped with its 32 bytes; a fragment joins
   * those gathered on its own lane; the last fragment gives them all as one message with its own identifier
   * and conversation index, leaving the lane empty and the bytes behind it unread.
   */
  lemma FrameReceived(cs: Channels, b: Bytes, h: Header, body: Bytes, rest: Bytes, fragments: nat)
    requires QueuesEmpty(cs) && IsHeader(b, h) && |body| == h.length && fragments < 65536
    ensures Meets(cs, h, body, rest, fragments, Receive(cs, b + body + rest, fragments))
  {
    hide IsHeader, Process, NextFrame, QueuesEmpty, Gathered, LaneStep;
    var s := b + body + rest;
    assert s[..32] == b by {
      HeaderIs32(b, h);
    }
    HeaderIs32(b, h);
    FrontFrame(s, h);
    var marker := h.fragmentCount > 1 && h.fragmentId == 0;
    var f := Frame(h, if marker then [] else body);
    assert s[32..32 + h.length] == body;
    assert NextFrame(s) == Some(f);
    ProcessOneLane(cs, f);
    StepIs(Gathered(cs, LaneIn(h)), f);
    var (cs', m) := Process(cs, f);
    if marker {
      assert s[32..] == body + rest;
      assert OnlyLane(cs, cs', LaneIn(h), Gathered(cs, LaneIn(h)));
    } else {
      assert s[32 + |body|..] == rest;
      assert OnlyLane(cs, cs', LaneIn(h), if m.Some? then [] else Gathered(cs, LaneIn(h)) + body);
    }
  }

  lemma HeaderIs32(b: Bytes, h: Header)
    requires IsHeader(b, h)
    ensures |b| == 32
  {
  }

  lemma StepIs(before: Bytes, f: Frame)
    ensures LaneOf(f.h.channelCode) == LaneIn(f.h)
    ensures LaneStep(before, f) ==
            if f.h.fragmentCount > 1 && f.h.fragmentId == 0 then (before, None)
            else if f.h.fragmentId + 1 == f.h.fragmentCount then
              ([], Some(Message(f.h.channelCode, f.h.identifier, f.h.conversationIndex, before + f.body)))
            else (before + f.body, None)
  {
  }

  // ----- the safety valve -----

  /** Frames that complete nothing are counted; at 65536 of them the call gives up. */
  lemma {:induction false} GivesUp(cs: Channels, fs: seq<Frame>, tail: Bytes, fragments: nat)
    requires QueuesEmpty(cs) && forall f :: f in fs ==> WellFormed(f)
    requires fragments < 65536 ==> |fs| >= 65536 - fragments && Outputs(cs, fs[..65536 - fragments]).0 == []
    ensures Receive(cs, FramesBytes(fs) + tail, fragments) == TooMany
    decreases 65536 - fragments
  {
    hide Process, NextFrame, QueuesEmpty, WellFormed, Outputs, FramesBytes, FrameSize;
    if fragments < 65536 {
      var left := 65536 - fragments;
      NextSilent(cs, fs, left);
      NextInFront(fs, tail);
      GivesUp(Process(cs, fs[0]).0, fs[1..], tail, fragments + 1);
    }
  }

  /** The first of frames that complete nothing completes nothing, nor do the others behind it. */
  lemma NextSilent(cs: Channels, fs: seq<Frame>, n: nat)
    requires QueuesEmpty(cs) && 0 < n <= |fs| && Outputs(cs, fs[..n]).0 == []
    ensures Process(cs, fs[0]).1 == None && QueuesEmpty(Process(cs, fs[0]).0)
    ensures Outputs(Process(cs, fs[0]).0, fs[1..][..n - 1]).0 == []
  {
    hide Process, Outputs, QueuesEmpty;
    ProcessOneLane(cs, fs[0]);
    OutputsFront(cs, fs, n);
    assert fs[1..n] == fs[1..][..n - 1];
  }

  /** A call gives up exactly when 65536 frames complete nothing. */
  lemma GivesUpExactlyWhen(cs: Channels, fs: seq<Frame>, tail: Bytes)
    requires QueuesEmpty(cs) && (forall f :: f in fs ==> WellFormed(f)) && NextFrame(tail).None?
    ensures Receive(cs, FramesBytes(fs) + tail, 0) == TooMany
            <==> |fs| >= 65536 && Outputs(cs, fs[..65536]).0 == []
  {
    hide Receive, Outputs, QueuesEmpty, WellFormed, NextFrame;
    ReceiveIsNextOutput(cs, fs, tail, 0);
    if |fs| >= 65536 && Outputs(cs, fs[..65536]).0 == [] {
      GivesUp(cs, fs, tail, 0);
    }
  }
}
