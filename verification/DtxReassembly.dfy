/** DTX frames, the per-channel fragmenter, and the loop that receives one message at a time. */
module DtxFraming {
  import opened Bytes
  import opened Wrappers

  const HEADER_SIZE: nat := 32
  const MAX_FRAGMENTS: nat := 65536

  datatype Header = Header(magic: nat, cb: nat, fragmentId: nat, fragmentCount: nat, length: nat, identifier: nat,
                           conversationIndex: nat, channelCode: int, expectsReply: nat)

  /** The first fragment of a multi-fragment message is a header alone. */
  predicate IsMarker(h: Header) {
    h.fragmentCount > 1 && h.fragmentId == 0
  }

  function ParseHeader(b: Bytes): Header
    requires |b| == HEADER_SIZE
  {
    Header(FromLE(b[0..4]), FromLE(b[4..8]), FromLE(b[8..10]), FromLE(b[10..12]), FromLE(b[12..16]),
           FromLE(b[16..20]), FromLE(b[20..24]), Signed(FromLE(b[24..28]), 4), FromLE(b[28..32]))
  }

  function BuildHeader(h: Header): (b: Bytes)
    ensures |b| == HEADER_SIZE
  {
    LE(h.magic, 4) + LE(h.cb, 4) + LE(h.fragmentId, 2) + LE(h.fragmentCount, 2) + LE(h.length, 4)
    + LE(h.identifier, 4) + LE(h.conversationIndex, 4) + LE(Unsigned(h.channelCode, 4), 4) + LE(h.expectsReply, 4)
  }

  datatype Frame = Frame(h: Header, body: Bytes)

  /** The frame at the front of the buffered bytes, when it is complete. */
  function NextFrame(b: Bytes): Option<Frame> {
    if |b| < HEADER_SIZE then None
    else
      var h := ParseHeader(b[..HEADER_SIZE]);
      if IsMarker(h) then Some(Frame(h, []))
      else if |b| < HEADER_SIZE + h.length then None
      else Some(Frame(h, b[HEADER_SIZE..HEADER_SIZE + h.length]))
  }

  function FrameSize(f: Frame): (n: nat)
    ensures n > 0
  {
    HEADER_SIZE + |f.body|
  }

  lemma NextFrameFits(b: Bytes)
    requires NextFrame(b).Some?
    ensures FrameSize(NextFrame(b).value) <= |b|
  {
  }

  // ----- one channel -----

  datatype Fragmenter = Fragmenter(messages: seq<Bytes>, packetData: Bytes, streamPacketData: Bytes)

  const NEW_FRAGMENTER := Fragmenter([], [], [])

  function AddFragment(fr: Fragmenter, h: Header, chunk: Bytes): Fragmenter {
    if h.channelCode >= 0 then
      var data := fr.packetData + chunk;
      if h.fragmentId == h.fragmentCount - 1 then fr.(messages := fr.messages + [data], packetData := [])
      else fr.(packetData := data)
    else
      var data := fr.streamPacketData + chunk;
      if h.fragmentId == h.fragmentCount - 1 then fr.(messages := fr.messages + [data], streamPacketData := [])
      else fr.(streamPacketData := data)
  }

  /** `messages.shift() || null`: an empty message is still a message. */
  function Get(fr: Fragmenter): (Option<Bytes>, Fragmenter) {
    if fr.messages == [] then (None, fr) else (Some(fr.messages[0]), fr.(messages := fr.messages[1..]))
  }

  // ----- receiving -----

  type Channels = map<nat, Fragmenter>

  /** The source reports the channel without its sign; the sign is kept here because it names the lane. */
  datatype Message = Message(channelCode: int, identifier: nat, conversationIndex: nat, payload: Bytes)

  function Abs(n: int): nat {
    if n < 0 then -n else n
  }

  function FragmenterOf(cs: Channels, channel: nat): Fragmenter {
    if channel in cs then cs[channel] else NEW_FRAGMENTER
  }

  /** One turn of the loop of `recvMessage`. */
  function Process(cs: Channels, f: Frame): (Channels, Option<Message>) {
    var channel := Abs(f.h.channelCode);
    var fr := FragmenterOf(cs, channel);
    if IsMarker(f.h) then (cs[channel := fr], None)
    else
      var (m, fr') := Get(AddFragment(fr, f.h, f.body));
      (cs[channel := fr'],
       if m.Some? then Some(Message(f.h.channelCode, f.h.identifier, f.h.conversationIndex, m.value)) else None)
  }

  /** What `recvMessage` does with the bytes at hand: a message, too many fragments, or more bytes awaited. */
  datatype Received =
    | Got(m: Message, cs: Channels, rest: Bytes)
    | TooMany
    | Awaiting(cs: Channels, rest: Bytes, fragments: nat)

  function Receive(cs: Channels, b: Bytes, fragments: nat): Received
    decreases |b|
  {
    if fragments >= MAX_FRAGMENTS then TooMany
    else
      match NextFrame(b)
      case None => Awaiting(cs, b, fragments)
      case Some(f) =>
        NextFrameFits(b);
        var (cs', m) := Process(cs, f);
        if m.Some? then Got(m.value, cs', b[FrameSize(f)..]) else Receive(cs', b[FrameSize(f)..], fragments + 1)
  }
}

module DtxReceiver {
  import opened Bytes
  import opened Wrappers
  import opened DtxFraming

  class ChannelFragmenter {
    var messages: seq<Bytes>
    var packetData: Bytes
    var streamPacketData: Bytes

    ghost function Current(): Fragmenter
      reads this
    {
      Fragmenter(messages, packetData, streamPacketData)
    }

    constructor ()
      ensures Current() == NEW_FRAGMENTER
    {
      messages, packetData, streamPacketData := [], [], [];
    }

    method Get() returns (m: Option<Bytes>)
      modifies this
      ensures (m, Current()) == DtxFraming.Get(old(Current()))
    {
      if messages == [] {
        return None;
      }
      m := Some(messages[0]);
      messages := messages[1..];
    }

    method AddFragment(header: Header, chunk: Bytes)
      modifies this
      ensures Current() == DtxFraming.AddFragment(old(Current()), header, chunk)
    {
      if header.channelCode >= 0 {
        packetData := packetData + chunk;
        if header.fragmentId == header.fragmentCount - 1 {
          messages := messages + [packetData];
          packetData := [];
        }
      } else {
        streamPacketData := streamPacketData + chunk;
        if header.fragmentId == header.fragmentCount - 1 {
          messages := messages + [streamPacketData];
          streamPacketData := [];
        }
      }
    }
  }

  class DtxReceiver {
    var readBuffer: Bytes
    var fragmenters: map<nat, ChannelFragmenter>

    /** Channels have fragmenters of their own. */
    ghost predicate Valid()
      reads this`fragmenters
    {
      forall a, b :: a in fragmenters && b in fragmenters && a != b ==> fragmenters[a] != fragmenters[b]
    }

    ghost function Channels(): Channels
      reads this`fragmenters, fragmenters.Values
    {
      map c | c in fragmenters :: fragmenters[c].Current()
    }

    constructor ()
      ensures Valid() && readBuffer == [] && Channels() == map[]
      ensures fresh(fragmenters.Values)
    {
      readBuffer := [];
      fragmenters := map[];
    }

    method OnData(chunk: Bytes)
      modifies this`readBuffer
      ensures readBuffer == old(readBuffer) + chunk && Channels() == old(Channels())
    {
      readBuffer := readBuffer + chunk;
    }

    /** The channel's fragmenter, created on first use. */
    method FragmenterFor(channel: nat) returns (fragmenter: ChannelFragmenter)
      requires Valid()
      modifies this`fragmenters
      ensures Valid() && channel in fragmenters && fragmenters[channel] == fragmenter
      ensures fresh(fragmenters.Values - old(fragmenters.Values))
      ensures Channels() == old(Channels())[channel := FragmenterOf(old(Channels()), channel)]
    {
      if channel !in fragmenters {
        var created := new ChannelFragmenter();
        fragmenters := fragmenters[channel := created];
      }
      fragmenter := fragmenters[channel];
    }

    /** Adds a fragment to a channel and takes a message off its queue; the other channels are left alone. */
    method Feed(channel: nat, fragmenter: ChannelFragmenter, f: Frame) returns (m: Option<Bytes>)
      requires Valid() && channel in fragmenters && fragmenters[channel] == fragmenter
      modifies fragmenter
      ensures var (got, fr) := DtxFraming.Get(DtxFraming.AddFragment(old(fragmenter.Current()), f.h, f.body));
              m == got && Channels() == old(Channels())[channel := fr]
    {
      hide DtxFraming.AddFragment, DtxFraming.Get;
      fragmenter.AddFragment(f.h, f.body);
      m := fragmenter.Get();
    }

    method Process(f: Frame) returns (m: Option<Message>)
      requires Valid()
      modifies this`fragmenters, fragmenters.Values
      ensures Valid() && fresh(fragmenters.Values - old(fragmenters.Values))
      ensures (Channels(), m) == DtxFraming.Process(old(Channels()), f)
    {
      hide DtxFraming.AddFragment, DtxFraming.Get, FragmenterOf, Valid;
      var channel := Abs(f.h.channelCode);
      var fragmenter := FragmenterFor(channel);
      assert fragmenter in fragmenters.Values;
      ghost var fr := FragmenterOf(old(Channels()), channel);
      ghost var before: Channels := Channels();
      assert before[channel] == fragmenter.Current() == fr;
      m := None;
      if !IsMarker(f.h) {
        var message := Feed(channel, fragmenter, f);
        ghost var done := DtxFraming.Get(DtxFraming.AddFragment(fr, f.h, f.body)).1;
        assert before[channel := done] == old(Channels())[channel := done];
        if message.Some? {
          m := Some(Message(f.h.channelCode, f.h.identifier, f.h.conversationIndex, message.value));
        }
      }
    }

    /** Receives until a message is complete, the bytes run out, or the safety valve trips. */
    method RecvMessage(fragments: nat) returns (r: Reception)
      requires Valid()
      modifies this, fragmenters.Values
      ensures Valid() && fresh(fragmenters.Values - old(fragmenters.Values))
      ensures match Receive(old(Channels()), old(readBuffer), fragments)
              case Got(m, cs, rest) => r == Reassembled(m) && Channels() == cs && readBuffer == rest
              case TooMany => r == Exceeded
              case Awaiting(cs, rest, n) => r == MoreNeeded(n) && Channels() == cs && readBuffer == rest
    {
      hide DtxFraming.Process, NextFrame;
      var n := fragments;
      while n < MAX_FRAGMENTS
        invariant Valid() && fresh(fragmenters.Values - old(fragmenters.Values))
        invariant Receive(old(Channels()), old(readBuffer), fragments) == Receive(Channels(), readBuffer, n)
        decreases MAX_FRAGMENTS - n
      {
        var f := NextFrame(readBuffer);
        if f.None? {
          return MoreNeeded(n);
        }
        NextFrameFits(readBuffer);
        var m := Process(f.value);
        readBuffer := readBuffer[FrameSize(f.value)..];
        if m.Some? {
          return Reassembled(m.value);
        }
        n := n + 1;
      }
      r := Exceeded;
    }
  }

  datatype Reception = Reassembled(m: Message) | Exceeded | MoreNeeded(fragments: nat)
}
