/** The splitter loses nothing, ignores chunking, and recovers what was framed. */
module SplitterTheorems {
  import opened Bytes
  import opened Wrappers
  import opened SplitterSpec

  // ----- conservation -----

  /** The bytes taken, frames and skipped bytes alike, in order. */
  function BytesOf(ts: seq<Taken>): Bytes {
    if ts == [] then [] else Held(ts[0]) + BytesOf(ts[1..])
  }

  function Held(t: Taken): Bytes {
    match t
    case Frame(bytes) => bytes
    case Skipped(byte) => [byte]
    case NotYet => []
  }

  lemma HeldIsFront(o: Options, b: Bytes)
    requires Supported(o)
    ensures Size(Take(o, b)) <= |b| && b == Held(Take(o, b)) + b[Size(Take(o, b))..]
  {
    hide Supported;
  }

  /** Frames and skipped bytes in order, followed by the buffer, are the input. */
  lemma {:induction false} Conservation(o: Options, b: Bytes)
    requires Supported(o)
    ensures BytesOf(Split(o, b).taken) + Split(o, b).rest == b
    decreases |b|
  {
    hide Take, Held;
    var t := Take(o, b);
    if t.NotYet? {
      assert BytesOf([]) + b == b;
    } else {
      HeldIsFront(o, b);
      Conservation(o, b[Size(t)..]);
      var c := Split(o, b[Size(t)..]);
      assert ([t] + c.taken)[1..] == c.taken;
      assert Held(t) + (BytesOf(c.taken) + c.rest) == (Held(t) + BytesOf(c.taken)) + c.rest;
    }
  }

  // ----- chunk independence -----

  /** What was taken stays taken when more bytes arrive. */
  lemma TakeMore(o: Options, a: Bytes, b: Bytes)
    requires Supported(o) && !Take(o, a).NotYet?
    ensures Take(o, a + b) == Take(o, a) && (a + b)[Size(Take(o, a))..] == a[Size(Take(o, a))..] + b
  {
    assert LengthField(o, a + b) == LengthField(o, a);
    match PayloadLength(o, LengthField(o, a))
    case None =>
    case Some(n) => assert (a + b)[..HeaderSize(o) + n] == a[..HeaderSize(o) + n];
  }

  /** Splitting a prefix, then what is left and more bytes, is splitting it all at once. */
  lemma {:induction false} SplitMore(o: Options, a: Bytes, b: Bytes)
    requires Supported(o)
    ensures var c := Split(o, a); var d := Split(o, c.rest + b);
            Split(o, a + b) == Cut(c.taken + d.taken, d.rest)
    decreases |a|
  {
    hide Take;
    var t := Take(o, a);
    if t.NotYet? {
      assert [] + Split(o, a + b).taken == Split(o, a + b).taken;
    } else {
      TakeMore(o, a, b);
      SplitMore(o, a[Size(t)..], b);
      var c := Split(o, a[Size(t)..]);
      var d := Split(o, c.rest + b);
      assert [t] + (c.taken + d.taken) == ([t] + c.taken) + d.taken;
    }
  }

  /** The splitter after a list of chunks: everything taken so far, and the buffer. */
  function AfterChunks(o: Options, chunks: seq<Bytes>): Cut
    requires Supported(o)
  {
    if chunks == [] then Cut([], [])
    else
      var c := AfterChunks(o, chunks[..|chunks| - 1]);
      var d := Split(o, c.rest + chunks[|chunks| - 1]);
      Cut(c.taken + d.taken, d.rest)
  }

  /** The frames do not depend on the chunking. */
  lemma {:induction false} ChunksIndependent(o: Options, chunks: seq<Bytes>)
    requires Supported(o)
    ensures AfterChunks(o, chunks) == Split(o, Flatten(chunks))
  {
    hide Split;
    if chunks == [] {
      NothingToSplit(o);
    } else {
      ChunksIndependent(o, chunks[..|chunks| - 1]);
      SplitMore(o, Flatten(chunks[..|chunks| - 1]), chunks[|chunks| - 1]);
    }
  }

  lemma NothingToSplit(o: Options)
    requires Supported(o)
    ensures Split(o, []) == Cut([], []) && Flatten<Byte>([]) == []
  {
  }

  // ----- recovery -----

  /** A frame to send: whatever precedes the length field, and the payload. */
  datatype Outgoing = Outgoing(prefix: Bytes, payload: Bytes)

  predicate Sendable(o: Options, f: Outgoing) {
    && |f.prefix| == o.lengthFieldOffset && |f.payload| <= o.maxFrameLength
    && 0 <= |f.payload| - o.lengthAdjustment < Pow256(o.lengthFieldLength)
  }

  function Encode(o: Options, f: Outgoing): Bytes
    requires Sendable(o, f)
  {
    var n := |f.payload| - o.lengthAdjustment;
    f.prefix + (if o.littleEndian then LE(n, o.lengthFieldLength) else BE(n, o.lengthFieldLength)) + f.payload
  }

  lemma {:induction false} HalvesLE(n: nat, w: nat, v: nat)
    requires v <= w
    ensures LE(n, w)[..v] == LE(n, v) && LE(n, w)[v..] == LE(n / Pow256(v), w - v)
  {
    if v > 0 {
      HalvesLE(n / 256, w - 1, v - 1);
      assert LE(n, w)[1..] == LE(n / 256, w - 1);
      assert LE(n, w)[..v] == [n % 256] + LE(n / 256, w - 1)[..v - 1];
      assert LE(n, w)[v..] == LE(n / 256, w - 1)[v - 1..];
      DivDiv(n, Pow256(v - 1));
    }
  }

  lemma DivDiv(n: nat, p: nat)
    requires p > 0
    ensures n / (256 * p) == n / 256 / p
  {
    var q, r := n / 256, n % 256;
    var a, c := q / p, q % p;
    assert n == 256 * q + r && q == a * p + c;
    assert n == a * (256 * p) + (256 * c + r);
    ModUnique(n, 256 * p, a, 256 * c + r);
  }

  lemma {:induction false} HalvesBE(n: nat, w: nat, v: nat)
    requires v <= w
    ensures BE(n, w)[w - v..] == BE(n, v) && BE(n, w)[..w - v] == BE(n / Pow256(v), w - v)
  {
    if v > 0 {
      HalvesBE(n / 256, w - 1, v - 1);
      var init := BE(n / 256, w - 1);
      assert BE(n, w) == init + [n % 256];
      assert BE(n, w)[w - v..] == init[(w - 1) - (v - 1)..] + [n % 256];
      assert BE(n, w)[..w - v] == init[..(w - 1) - (v - 1)];
      DivDiv(n, Pow256(v - 1));
    }
  }

  /** The length field reads back, whatever its width and byte order. */
  lemma LengthReadBack(o: Options, n: nat)
    requires Supported(o) && n < Pow256(o.lengthFieldLength)
    ensures ReadLength(o, if o.littleEndian then LE(n, o.lengthFieldLength) else BE(n, o.lengthFieldLength)) == n
  {
    var w := o.lengthFieldLength;
    if w == 8 {
      Pow256Values();
      assert n / TWO32 < TWO32;
      assert n == n / TWO32 * TWO32 + n % TWO32;
      HalvesLE(n, 8, 4);
      HalvesBE(n, 8, 4);
      LowHalf(n);
      LERoundTrip(n / TWO32, 4);
      BERoundTrip(n / TWO32, 4);
    } else {
      LERoundTrip(n, w);
      BERoundTrip(n, w);
    }
  }

  /** Four bytes hold a number modulo 2^32. */
  lemma LowHalf(n: nat)
    ensures FromLE(LE(n, 4)) == n % TWO32 && FromBE(BE(n, 4)) == n % TWO32
  {
    Pow256Values();
    var m := n % TWO32;
    assert n == n / TWO32 * TWO32 + m;
    SameLowLE(n, m, n / TWO32, 4);
    LERoundTrip(m, 4);
    SameLowBE(n, m, n / TWO32, 4);
    BERoundTrip(m, 4);
  }

  lemma {:induction false} SameLowLE(n: nat, m: nat, q: nat, w: nat)
    requires n == q * Pow256(w) + m
    ensures LE(n, w) == LE(m, w)
  {
    if w > 0 {
      LowByte(n, m, q, Pow256(w - 1));
      SameLowLE(n / 256, m / 256, q, w - 1);
    }
  }

  lemma {:induction false} SameLowBE(n: nat, m: nat, q: nat, w: nat)
    requires n == q * Pow256(w) + m
    ensures BE(n, w) == BE(m, w)
  {
    if w > 0 {
      LowByte(n, m, q, Pow256(w - 1));
      SameLowBE(n / 256, m / 256, q, w - 1);
    }
  }

  lemma LowByte(n: nat, m: nat, q: nat, p: nat)
    requires n == q * (256 * p) + m
    ensures n % 256 == m % 256 && n / 256 == q * p + m / 256
  {
    assert q * (256 * p) == (q * p) * 256;
    assert n == (q * p + m / 256) * 256 + m % 256;
    ModUnique(n, 256, q * p + m / 256, m % 256);
  }

  lemma TakeSent(o: Options, f: Outgoing, rest: Bytes)
    requires Supported(o) && Sendable(o, f)
    ensures Take(o, Encode(o, f) + rest) == Frame(Encode(o, f)) && Encode(o, f) != []
  {
    hide ReadLength, LE, BE, Pow256;
    var n := |f.payload| - o.lengthAdjustment;
    var field := if o.littleEndian then LE(n, o.lengthFieldLength) else BE(n, o.lengthFieldLength);
    var b := Encode(o, f) + rest;
    LengthReadBack(o, n);
    assert b[o.lengthFieldOffset..HeaderSize(o)] == field;
    assert b[..HeaderSize(o) + |f.payload|] == Encode(o, f);
  }

  function EncodeAll(o: Options, fs: seq<Outgoing>): Bytes
    requires forall f :: f in fs ==> Sendable(o, f)
  {
    if fs == [] then [] else Encode(o, fs[0]) + EncodeAll(o, fs[1..])
  }

  function AllFrames(o: Options, fs: seq<Outgoing>): (r: seq<Taken>)
    requires forall f :: f in fs ==> Sendable(o, f)
    ensures |r| == |fs| && forall i :: 0 <= i < |r| ==> r[i] == Frame(Encode(o, fs[i]))
  {
    seq(|fs|, i requires 0 <= i < |fs| => Frame(Encode(o, fs[i])))
  }

  /** A stream of in-range frames is recovered exactly: every frame, nothing skipped, nothing left. */
  lemma {:induction false} Recovery(o: Options, fs: seq<Outgoing>)
    requires Supported(o) && forall f :: f in fs ==> Sendable(o, f)
    ensures Split(o, EncodeAll(o, fs)) == Cut(AllFrames(o, fs), [])
  {
    hide Take, Sendable, Encode;
    if fs == [] {
      NothingToSplit(o);
    } else {
      var e, rest := Encode(o, fs[0]), EncodeAll(o, fs[1..]);
      TakeSent(o, fs[0], rest);
      Recovery(o, fs[1..]);
      assert (e + rest)[|e|..] == rest;
      assert AllFrames(o, fs) == [Frame(e)] + AllFrames(o, fs[1..]);
    }
  }
}
