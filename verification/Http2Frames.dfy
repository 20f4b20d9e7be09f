/** HTTP/2 frames: what is serialized, what is parsed, and the loop that cuts a byte stream into frames. */
module Http2Format {
  import opened Bytes
  import opened Wrappers

  const FRAME_HEADER_SIZE: nat := 9
  const TYPE_DATA: nat := 0
  const TYPE_WINDOW_UPDATE: nat := 8
  const FLAG_END_STREAM: nat := 1
  const FLAG_PADDED: nat := 8
  const MAX_BODY: nat := 0x100_0000

  datatype Error = RangeError | TypeError | ProtocolError

  // ----- packing -----

  datatype FieldType = H | B | L

  function Width(t: FieldType): nat {
    match t
    case H => 2
    case B => 1
    case L => 4
  }

  function PackedField(t: FieldType, v: int): Result<Bytes, Error> {
    if 0 <= v < Pow256(Width(t)) then Ok(BE(v, Width(t))) else Err(RangeError)
  }

  function ByteLength(types: seq<FieldType>): nat {
    if types == [] then 0 else ByteLength(types[..|types| - 1]) + Width(types[|types| - 1])
  }

  function Packed(types: seq<FieldType>, values: seq<int>): (r: Result<Bytes, Error>)
    requires |types| == |values|
    ensures r.Ok? ==> |r.value| == ByteLength(types)
  {
    if types == [] then Ok([])
    else
      var n := |types| - 1;
      var init :- Packed(types[..n], values[..n]);
      var last :- PackedField(types[n], values[n]);
      Ok(init + last)
  }

  const HBBBL := [H, B, B, B, L]

  // ----- serializing -----

  /** A DATA frame to send; `padLength` is a public field, honoured with or without the PADDED flag. */
  datatype DataFrame = DataFrame(streamId: nat, data: Bytes, endStream: bool, padded: bool, padLength: nat)

  function Zeros(n: nat): (b: Bytes)
    ensures |b| == n && forall i :: 0 <= i < n ==> b[i] == 0
  {
    seq(n, i => 0)
  }

  function SerializeBody(f: DataFrame): Result<Bytes, Error> {
    var pad :- if f.padded then Packed([B], [f.padLength]) else Ok([]);
    Ok(pad + f.data + Zeros(f.padLength))
  }

  function SerializeFrame(kind: nat, flags: nat, streamId: nat, body: Bytes): Result<Bytes, Error> {
    var header :- Packed(HBBBL, [|body| / 0x100 % 0x1_0000, |body| % 0x100, kind, flags, streamId % TWO31]);
    Ok(header + body)
  }

  function Serialize(f: DataFrame): Result<Bytes, Error> {
    var body :- SerializeBody(f);
    SerializeFrame(TYPE_DATA, (if f.endStream then FLAG_END_STREAM else 0) + (if f.padded then FLAG_PADDED else 0),
                   f.streamId, body)
  }

  function WindowUpdate(streamId: nat, increment: nat): Result<Bytes, Error> {
    var body :- Packed([L], [increment % TWO31]);
    SerializeFrame(TYPE_WINDOW_UPDATE, 0, streamId, body)
  }

  /** WINDOW_UPDATE frames are answered on even streams only. */
  function WindowUpdates(streamId: nat, increment: nat): Result<seq<Bytes>, Error> {
    if streamId % 2 != 0 || increment == 0 then Ok([])
    else
      var connection :- WindowUpdate(0, increment);
      var stream :- WindowUpdate(streamId, increment);
      Ok([connection, stream])
  }

  // ----- parsing -----

  datatype Frame = Data(streamId: nat, data: Bytes, bodyLen: nat) | Other

  function FrameLength(b: Bytes): nat
    requires |b| >= 3
  {
    FromBE(b[0..3])
  }

  function StripPadding(body: Bytes, flags: Byte): (r: Result<Bytes, Error>)
    ensures r.Err? ==> r.error == ProtocolError
  {
    if flags / FLAG_PADDED % 2 == 0 then Ok(body)
    else if body == [] then Err(ProtocolError)
    else if body[0] >= |body| then Err(ProtocolError)
    else Ok(body[1..|body| - body[0]])
  }

  predicate Complete(b: Bytes) {
    |b| >= FRAME_HEADER_SIZE && |b| >= FRAME_HEADER_SIZE + FrameLength(b)
  }

  function ParseFrame(b: Bytes): (r: Result<Frame, Error>)
    requires Complete(b)
    ensures r.Err? ==> r.error == ProtocolError
  {
    var length := FrameLength(b);
    if b[3] != TYPE_DATA then Ok(Other)
    else
      var data :- StripPadding(b[FRAME_HEADER_SIZE..FRAME_HEADER_SIZE + length], b[4]);
      Ok(Data(FromBE(b[5..9]) % TWO31, data, length))
  }

  /** The frames an append cuts off, what stays buffered, and whether a malformed frame stopped it. */
  datatype Drained = Drained(frames: seq<Frame>, rest: Bytes, failed: bool)

  function Drain(b: Bytes): Drained
    decreases |b|
  {
    if !Complete(b) then Drained([], b, false)
    else
      var total := FRAME_HEADER_SIZE + FrameLength(b);
      assert b[..total][0..3] == b[0..3];
      match ParseFrame(b[..total])
      case Err(_) => Drained([], b[total..], true)
      case Ok(f) =>
        var d := Drain(b[total..]);
        Drained([f] + d.frames, d.rest, d.failed)
  }
}

module Http2FrameParser {
  import opened Bytes
  import opened Wrappers
  import opened Http2Format

  /** `Struct.pack`: fields are written into a buffer at a moving offset. */
  method Pack(types: seq<FieldType>, values: seq<int>) returns (r: Result<Bytes, Error>)
    requires |types| == |values|
    ensures r == Packed(types, values)
  {
    var buf := new Byte[ByteLength(types)];
    var offset := 0;
    for i := 0 to |types|
      invariant Packed(types[..i], values[..i]).Ok?
      invariant offset == ByteLength(types[..i]) <= buf.Length
      invariant buf[..offset] == Packed(types[..i], values[..i]).value
    {
      assert types[..i + 1][..i] == types[..i] && values[..i + 1][..i] == values[..i];
      var field := PackedField(types[i], values[i]);
      if field.Err? {
        PackedError(types, values, i + 1);
        return Err(field.error);
      }
      LengthMono(types, i + 1);
      ghost var before := buf[..offset];
      forall j | 0 <= j < |field.value| {
        buf[offset + j] := field.value[j];
      }
      assert buf[..offset + |field.value|] == before + field.value;
      offset := offset + |field.value|;
    }
    assert types[..|types|] == types && values[..|values|] == values;
    assert buf[..offset] == buf[..];
    r := Ok(buf[..]);
  }

  lemma {:induction false} LengthMono(types: seq<FieldType>, n: nat)
    requires n <= |types|
    ensures ByteLength(types[..n]) <= ByteLength(types)
  {
    if n == |types| {
      assert types[..n] == types;
    } else {
      assert types[..|types| - 1][..n] == types[..n];
      LengthMono(types[..|types| - 1], n);
    }
  }

  lemma {:induction false} PackedError(types: seq<FieldType>, values: seq<int>, n: nat)
    requires |types| == |values| && n <= |types| && Packed(types[..n], values[..n]).Err?
    ensures Packed(types, values) == Packed(types[..n], values[..n])
  {
    if n == |types| {
      assert types[..n] == types && values[..n] == values;
    } else {
      var m := |types| - 1;
      assert types[..m][..n] == types[..n] && values[..m][..n] == values[..n];
      PackedError(types[..m], values[..m], n);
    }
  }

  class Http2FrameParser {
    var buffer: Bytes

    constructor ()
      ensures buffer == []
    {
      buffer := [];
    }

    /** A malformed frame is consumed, throws, and takes the frames collected before it along. */
    method Append(chunk: Bytes) returns (r: Result<seq<Frame>, Error>)
      modifies this
      ensures var d := Drain(old(buffer) + chunk);
              buffer == d.rest && (if d.failed then r == Err(ProtocolError) else r == Ok(d.frames))
    {
      hide Complete, FrameLength, ParseFrame;
      buffer := buffer + chunk;
      ghost var all := Drain(buffer);
      var frames: seq<Frame> := [];
      while Complete(buffer)
        invariant var d := Drain(buffer);
                  all.frames == frames + d.frames && all.rest == d.rest && all.failed == d.failed
        decreases |buffer|
      {
        CompleteLength(buffer);
        var total := FRAME_HEADER_SIZE + FrameLength(buffer);
        var frame := ParseFrame(buffer[..total]);
        buffer := buffer[total..];
        if frame.Err? {
          return Err(frame.error);
        }
        frames := frames + [frame.value];
      }
      assert frames + [] == frames;
      r := Ok(frames);
    }
  }

  lemma CompleteLength(b: Bytes)
    requires Complete(b)
    ensures |b| >= FRAME_HEADER_SIZE + FrameLength(b) && Complete(b[..FRAME_HEADER_SIZE + FrameLength(b)])
    ensures FrameLength(b[..FRAME_HEADER_SIZE + FrameLength(b)]) == FrameLength(b)
  {
    assert b[..FRAME_HEADER_SIZE + FrameLength(b)][0..3] == b[0..3];
  }
}
