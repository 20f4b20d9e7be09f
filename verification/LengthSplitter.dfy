/** The length-prefixed splitter: frames are cut off a byte stream, and bytes with an impossible length are skipped. */
module SplitterSpec {
  import opened Bytes
  import opened Wrappers

  datatype Options = Options(littleEndian: bool, maxFrameLength: int, lengthFieldOffset: nat, lengthFieldLength: nat,
                             lengthAdjustment: int)

  predicate Supported(o: Options) {
    o.lengthFieldLength == 1 || o.lengthFieldLength == 2 || o.lengthFieldLength == 4 || o.lengthFieldLength == 8
  }

  function HeaderSize(o: Options): nat {
    o.lengthFieldOffset + o.lengthFieldLength
  }

  function LengthField(o: Options, b: Bytes): Bytes
    requires |b| >= HeaderSize(o)
  {
    b[o.lengthFieldOffset..HeaderSize(o)]
  }

  /** The length field in the configured byte order; 8-byte fields are put together from two halves. */
  function ReadLength(o: Options, field: Bytes): nat
    requires |field| == o.lengthFieldLength
  {
    if o.lengthFieldLength == 8 then
      var first, second := field[..4], field[4..];
      if o.littleEndian then FromLE(second) * TWO32 + FromLE(first) else FromBE(first) * TWO32 + FromBE(second)
    else if o.littleEndian then FromLE(field) else FromBE(field)
  }

  predicate InRange(o: Options, n: int) {
    0 <= n <= o.maxFrameLength
  }

  /** The payload length to use, if any: for 4-byte fields the other byte order is tried, unadjusted. */
  function PayloadLength(o: Options, field: Bytes): (r: Option<nat>)
    requires |field| == o.lengthFieldLength
  {
    var n := ReadLength(o, field) + o.lengthAdjustment;
    if InRange(o, n) then Some(n)
    else if o.lengthFieldLength == 4 then
      var other := if o.littleEndian then FromBE(field) else FromLE(field);
      if 0 < other <= o.maxFrameLength then Some(other) else None
    else None
  }

  /** What one turn of the loop takes off the front of the buffer. */
  datatype Taken = Frame(bytes: Bytes) | Skipped(byte: Byte) | NotYet

  function Take(o: Options, b: Bytes): (t: Taken)
    requires Supported(o)
    ensures t.Frame? ==> 0 < |t.bytes| <= |b| && t.bytes == b[..|t.bytes|]
    ensures t.Skipped? ==> |b| > 0 && t.byte == b[0]
  {
    if |b| < HeaderSize(o) then NotYet
    else
      match PayloadLength(o, LengthField(o, b))
      case None => Skipped(b[0])
      case Some(n) => if |b| < HeaderSize(o) + n then NotYet else Frame(b[..HeaderSize(o) + n])
  }

  function Size(t: Taken): nat {
    match t
    case Frame(bytes) => |bytes|
    case Skipped(_) => 1
    case NotYet => 0
  }

  datatype Cut = Cut(taken: seq<Taken>, rest: Bytes)

  /** The whole loop. */
  function Split(o: Options, b: Bytes): Cut
    requires Supported(o)
    decreases |b|
  {
    var t := Take(o, b);
    if t.NotYet? then Cut([], b)
    else
      var c := Split(o, b[Size(t)..]);
      Cut([t] + c.taken, c.rest)
  }

  /** What is pushed downstream. */
  function Frames(ts: seq<Taken>): seq<Bytes> {
    if ts == [] then []
    else Frames(ts[..|ts| - 1]) + (if ts[|ts| - 1].Frame? then [ts[|ts| - 1].bytes] else [])
  }
}

module LengthBasedSplitter {
  import opened Bytes
  import opened Wrappers
  import opened SplitterSpec

  class LengthBasedSplitter {
    const options: Options
    var buffer: Bytes
    var pushed: seq<Bytes>

    constructor (o: Options)
      ensures options == o && buffer == [] && pushed == []
    {
      options := o;
      buffer, pushed := [], [];
    }

    /** `_transform`: an unsupported field width throws once a header is buffered. */
    method Transform(chunk: Bytes) returns (failed: bool)
      modifies this
      ensures failed <==> !Supported(options) && |old(buffer) + chunk| >= HeaderSize(options)
      ensures failed || !Supported(options) ==> buffer == old(buffer) + chunk && pushed == old(pushed)
      ensures Supported(options) ==>
                var c := Split(options, old(buffer) + chunk);
                buffer == c.rest && pushed == old(pushed) + Frames(c.taken)
    {
      hide Take;
      buffer := buffer + chunk;
      failed := false;
      if !Supported(options) {
        failed := |buffer| >= HeaderSize(options);
        return;
      }
      ghost var all := Split(options, buffer);
      ghost var done: seq<Taken> := [];
      var t := Take(options, buffer);
      while !t.NotYet?
        invariant t == Take(options, buffer)
        invariant all.taken == done + Split(options, buffer).taken && all.rest == Split(options, buffer).rest
        invariant pushed == old(pushed) + Frames(done)
        decreases |buffer|
      {
        if t.Frame? {
          pushed := pushed + [t.bytes];
        }
        buffer := buffer[Size(t)..];
        assert (done + [t])[..|done|] == done;
        done := done + [t];
        t := Take(options, buffer);
      }
      assert done + [] == done;
    }
  }
}
