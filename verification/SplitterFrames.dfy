/** Where the splitter cuts, from the bytes in front of the stream. */
module SplitterFrames {
  import opened Bytes
  import opened Wrappers
  import opened SplitterSpec
  import opened SplitterTheorems
  import O = ByteOrder

  /** The number in the length field: one byte order, and the other. */
  function Length(o: Options, b: Bytes): nat
    requires |b| >= o.lengthFieldOffset + o.lengthFieldLength
  {
    var field := b[o.lengthFieldOffset..o.lengthFieldOffset + o.lengthFieldLength];
    if o.littleEndian then FromLE(field) else FromBE(field)
  }

  function OtherLength(o: Options, b: Bytes): nat
    requires |b| >= o.lengthFieldOffset + o.lengthFieldLength
  {
    var field := b[o.lengthFieldOffset..o.lengthFieldOffset + o.lengthFieldLength];
    if o.littleEndian then FromBE(field) else FromLE(field)
  }

  /** `n` bytes of payload come behind the length field: the adjusted length, or the other order of four bytes. */
  predicate Payload(o: Options, b: Bytes, n: nat)
    requires |b| >= o.lengthFieldOffset + o.lengthFieldLength
  {
    var m := Length(o, b) + o.lengthAdjustment;
    if 0 <= m <= o.maxFrameLength then n == m
    else o.lengthFieldLength == 4 && 0 < OtherLength(o, b) <= o.maxFrameLength && n == OtherLength(o, b)
  }

  lemma LengthIs(o: Options, b: Bytes)
    requires Supported(o) && |b| >= HeaderSize(o)
    ensures ReadLength(o, LengthField(o, b)) == Length(o, b)
  {
    hide FromBE, FromLE;
    if o.lengthFieldLength == 8 {
      O.EightBytes(LengthField(o, b));
    }
  }

  /** A turn that takes `n` bytes of payload, skips a byte, or waits. */
  ghost predicate Turn(o: Options, b: Bytes, t: Taken) {
    var header := o.lengthFieldOffset + o.lengthFieldLength;
    if |b| < header then t == NotYet
    else if exists n: nat :: Payload(o, b, n) then
      exists n: nat :: Payload(o, b, n) && t == if |b| < header + n then NotYet else Frame(b[..header + n])
    else b != [] && t == Skipped(b[0])
  }

  /** Each turn cuts so, whatever the bytes are. */
  lemma TakesExactly(o: Options, b: Bytes)
    requires Supported(o)
    ensures Turn(o, b, Take(o, b))
  {
    hide ReadLength, Length, OtherLength;
    if |b| >= HeaderSize(o) {
      LengthIs(o, b);
      OtherIs(o, b);
      var n := PayloadLength(o, LengthField(o, b));
      if n.Some? {
        assert Payload(o, b, n.value);
      }
    }
  }

  lemma OtherIs(o: Options, b: Bytes)
    requires |b| >= HeaderSize(o)
    ensures OtherLength(o, b) ==
            if o.littleEndian then FromBE(LengthField(o, b)) else FromLE(LengthField(o, b))
  {
  }

  /** Cut after cut, each at the front of what the cuts before it left. */
  ghost predicate Cuts(o: Options, b: Bytes, ts: seq<Taken>, rest: Bytes)
    decreases |ts|
  {
    if ts == [] then b == rest && Turn(o, b, NotYet)
    else
      match ts[0]
      case NotYet => false
      case Skipped(_) => b != [] && Turn(o, b, ts[0]) && Cuts(o, b[1..], ts[1..], rest)
      case Frame(f) => 0 < |f| <= |b| && Turn(o, b, ts[0]) && Cuts(o, b[|f|..], ts[1..], rest)
  }

  /** The whole loop makes those cuts until the next one needs more bytes. */
  lemma {:induction false} SplitsExactly(o: Options, b: Bytes)
    requires Supported(o)
    ensures Cuts(o, b, Split(o, b).taken, Split(o, b).rest)
    decreases |b|
  {
    hide Turn, Take;
    var t := Take(o, b);
    TakesExactly(o, b);
    if !t.NotYet? {
      var c := Split(o, b[Size(t)..]);
      SplitsExactly(o, b[Size(t)..]);
      assert ([t] + c.taken)[1..] == c.taken;
    }
  }
}
