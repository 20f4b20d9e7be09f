/** The framed transport: DATA payloads are acknowledged, joined and decoded into XPC messages. */
module RemoteXpcSpec {
  import opened Bytes
  import opened Wrappers
  import opened Http2Format
  import X = XpcFormat

  /** What the transport emits. */
  datatype Event = MessageEvent(body: X.Xpc) | ErrorEvent

  datatype Transport = Transport(buffer: Bytes, pending: Bytes, emitted: seq<Event>, written: seq<Bytes>)

  const FRESH := Transport([], [], [], [])

  datatype Decoded = Decoded(bodies: seq<X.Xpc>, rest: Bytes)

  /** Decode messages from the front until one does not decode; messages without a body are dropped. */
  function Greedy(round: X.Rounding, b: Bytes): Decoded
    decreases |b|
  {
    if b == [] then Decoded([], [])
    else
      match X.DecodeMessage(round, b)
      case Err(_) => Decoded([], b)
      case Ok(m) =>
        var d := Greedy(round, b[m.next..]);
        Decoded((if m.value.body.Some? then [m.value.body.value] else []) + d.bodies, d.rest)
  }

  function Events(bodies: seq<X.Xpc>): (r: seq<Event>)
    ensures |r| == |bodies| && forall i :: 0 <= i < |r| ==> r[i] == MessageEvent(bodies[i])
  {
    seq(|bodies|, i requires 0 <= i < |bodies| => MessageEvent(bodies[i]))
  }

  function Updates(f: Frame): seq<Bytes> {
    if f.Data? && WindowUpdates(f.streamId, f.bodyLen).Ok? then WindowUpdates(f.streamId, f.bodyLen).value else []
  }

  function Ingest(round: X.Rounding, t: Transport, data: Bytes): Transport {
    var d := Greedy(round, t.pending + data);
    t.(pending := d.rest, emitted := t.emitted + Events(d.bodies))
  }

  function HandleFrame(round: X.Rounding, t: Transport, f: Frame): Transport {
    match f
    case Other => t
    case Data(_, data, _) => Ingest(round, t.(written := t.written + Updates(f)), data)
  }

  function HandleFrames(round: X.Rounding, t: Transport, fs: seq<Frame>): Transport {
    if fs == [] then t else HandleFrame(round, HandleFrames(round, t, fs[..|fs| - 1]), fs[|fs| - 1])
  }

  /** One chunk from the socket. */
  function HandleData(round: X.Rounding, t: Transport, chunk: Bytes): Transport {
    var d := Drain(t.buffer + chunk);
    var t1 := t.(buffer := d.rest);
    if d.failed then t1.(emitted := t1.emitted + [ErrorEvent]) else HandleFrames(round, t1, d.frames)
  }

  function HandleChunks(round: X.Rounding, t: Transport, chunks: seq<Bytes>): Transport {
    if chunks == [] then t
    else HandleData(round, HandleChunks(round, t, chunks[..|chunks| - 1]), chunks[|chunks| - 1])
  }
}

module RemoteXpcFramedTransport {
  import opened Bytes
  import opened Wrappers
  import opened Http2Format
  import opened RemoteXpcSpec
  import P = Http2FrameParser
  import X = XpcFormat
  import XpcProtocol

  class RemoteXpcFramedTransport {
    const frameParser: P.Http2FrameParser
    const round: X.Rounding
    var open: bool
    var pendingXpcData: Bytes
    var emitted: seq<Event>
    var written: seq<Bytes>

    ghost function Current(): Transport
      reads this, frameParser
    {
      Transport(frameParser.buffer, pendingXpcData, emitted, written)
    }

    constructor (r: X.Rounding)
      ensures fresh(frameParser) && round == r && open && Current() == FRESH
    {
      frameParser := new P.Http2FrameParser();
      round := r;
      open := true;
      pendingXpcData, emitted, written := [], [], [];
    }

    /** Data that arrives without a socket is ignored. */
    method HandleData(chunk: Bytes)
      modifies this, frameParser
      ensures open == old(open)
      ensures Current() == if open then RemoteXpcSpec.HandleData(round, old(Current()), chunk) else old(Current())
    {
      hide Greedy, Drain;
      if !open {
        return;
      }
      var frames := frameParser.Append(chunk);
      if frames.Err? {
        emitted := emitted + [ErrorEvent];
        return;
      }
      var fs := frames.value;
      ghost var start := Current();
      for i := 0 to |fs|
        invariant open
        invariant Current() == HandleFrames(round, start, fs[..i])
      {
        assert fs[..i + 1][..i] == fs[..i];
        if fs[i].Data? {
          var updates := WindowUpdates(fs[i].streamId, fs[i].bodyLen);
          if updates.Ok? {
            written := written + updates.value;
          }
          assert written == HandleFrames(round, start, fs[..i]).written + Updates(fs[i]);
          IngestXpcData(fs[i].data);
        }
      }
      assert fs[..|fs|] == fs;
    }

    method IngestXpcData(chunk: Bytes)
      modifies this`pendingXpcData, this`emitted
      ensures Current() == Ingest(round, old(Current()), chunk)
    {
      hide X.DecodeMessage, Drain;
      var pending := pendingXpcData + chunk;
      ghost var all := Greedy(round, pending);
      pendingXpcData := [];
      ghost var done: seq<X.Xpc> := [];
      while pending != []
        invariant pendingXpcData == []
        invariant all.bodies == done + Greedy(round, pending).bodies && all.rest == Greedy(round, pending).rest
        invariant emitted == old(emitted) + Events(done)
        invariant frameParser.buffer == old(frameParser.buffer)
        decreases |pending|
      {
        var decoded := XpcProtocol.DecodeMessage(round, pending);
        if decoded.Err? {
          pendingXpcData := pending;
          assert all.bodies == done;
          return;
        }
        var message := decoded.value.value;
        pending := pending[decoded.value.next..];
        if message.body.Some? {
          emitted := emitted + [MessageEvent(message.body.value)];
          assert Events(done + [message.body.value]) == Events(done) + [MessageEvent(message.body.value)];
          done := done + [message.body.value];
        }
      }
      assert all.bodies == done;
    }
  }
}
