/** Exactly when the frames delivered by the HTTP/2 parser depend on how the stream is cut into chunks. */
module Http2Chunking {
  import opened Bytes
  import opened Wrappers
  import opened Http2Format
  import T = RemoteXpcTheorems

  /** The frames returned by the appends that do not throw. */
  function Delivered(buffer: Bytes, chunks: seq<Bytes>): seq<Frame>
    decreases |chunks|
  {
    if chunks == [] then []
    else
      var d := Drain(buffer + chunks[0]);
      (if d.failed then [] else d.frames) + Delivered(d.rest, chunks[1..])
  }

  /** All well-formed frames of a stream, malformed ones skipped. */
  function WellFormed(b: Bytes): seq<Frame>
    decreases |b|
  {
    if !Complete(b) then []
    else
      var total := FRAME_HEADER_SIZE + FrameLength(b);
      T.DrainStep(b);
      (match ParseFrame(b[..total]) case Err(_) => [] case Ok(f) => [f]) + WellFormed(b[total..])
  }

  lemma WellFormedStep(b: Bytes)
    requires Complete(b)
    ensures var total := FRAME_HEADER_SIZE + FrameLength(b);
            && total <= |b| && Complete(b[..total])
            && WellFormed(b) ==
               (match ParseFrame(b[..total]) case Err(_) => [] case Ok(f) => [f]) + WellFormed(b[total..])
  {
    T.DrainStep(b);
  }

  lemma WellFormedNone(b: Bytes)
    requires !Complete(b)
    ensures WellFormed(b) == []
  {
  }

  /** One append takes its frames off the front of the stream, and leaves the rest to come. */
  lemma {:induction false} WellFormedSplit(a: Bytes, b: Bytes)
    ensures WellFormed(a + b) == Drain(a).frames + WellFormed(Drain(a).rest + b)
    decreases |a|
  {
    hide ParseFrame, Complete, FrameLength, Drain, WellFormed;
    if !Complete(a) {
      T.NotComplete(a);
      assert [] + WellFormed(a + b) == WellFormed(a + b);
    } else {
      T.DrainStep(a);
      T.CompleteMore(a, b);
      WellFormedStep(a + b);
      var total := FRAME_HEADER_SIZE + FrameLength(a);
      if ParseFrame(a[..total]).Err? {
        assert [] + WellFormed(a[total..] + b) == WellFormed(a[total..] + b);
      } else {
        WellFormedSplit(a[total..], b);
        var f, d := ParseFrame(a[..total]).value, Drain(a[total..]);
        assert [f] + (d.frames + WellFormed(d.rest + b)) == ([f] + d.frames) + WellFormed(d.rest + b);
      }
    }
  }

  /** When no frame is malformed, one append delivers every frame. */
  lemma {:induction false} CleanDrain(a: Bytes)
    requires !Drain(a).failed
    ensures Drain(a).frames == WellFormed(a) && !Complete(Drain(a).rest)
    decreases |a|
  {
    hide ParseFrame, Complete, FrameLength, Drain, WellFormed;
    if !Complete(a) {
      T.NotComplete(a);
      WellFormedNone(a);
    } else {
      T.DrainStep(a);
      WellFormedStep(a);
      CleanDrain(a[FRAME_HEADER_SIZE + FrameLength(a)..]);
    }
  }

  lemma FlattenFront(chunks: seq<Bytes>)
    requires chunks != []
    ensures Flatten(chunks) == chunks[0] + Flatten(chunks[1..])
  {
    assert chunks == [chunks[0]] + chunks[1..];
    FlattenAppend([chunks[0]], chunks[1..]);
    var one: seq<Bytes> := [chunks[0]];
    assert one[..0] == [];
    assert Flatten([chunks[0]]) == [] + chunks[0] == chunks[0];
  }

  /** Without malformed frames every chunking delivers every frame. */
  lemma {:induction false} CleanDelivers(buffer: Bytes, chunks: seq<Bytes>)
    requires !Complete(buffer) && !Drain(buffer + Flatten(chunks)).failed
    ensures Delivered(buffer, chunks) == WellFormed(buffer + Flatten(chunks))
    decreases |chunks|
  {
    hide Drain, WellFormed, Complete, Flatten;
    if chunks == [] {
      NoChunks();
      assert buffer + [] == buffer;
      WellFormedNone(buffer);
    } else {
      FlattenFront(chunks);
      var a, rest := buffer + chunks[0], Flatten(chunks[1..]);
      assert buffer + Flatten(chunks) == a + rest;
      T.PrefixClean(a, rest);
      T.DrainSplit(a, rest);
      CleanDrain(a);
      WellFormedSplit(a, rest);
      CleanDelivers(Drain(a).rest, chunks[1..]);
    }
  }

  lemma NoChunks()
    ensures Flatten<Byte>([]) == []
  {
  }

  /** A stream with nothing well formed delivers nothing. */
  lemma {:induction false} NothingDelivered(buffer: Bytes, chunks: seq<Bytes>)
    requires WellFormed(buffer + Flatten(chunks)) == []
    ensures Delivered(buffer, chunks) == []
    decreases |chunks|
  {
    hide Drain, WellFormed, Flatten;
    if chunks != [] {
      FlattenFront(chunks);
      var a, rest := buffer + chunks[0], Flatten(chunks[1..]);
      assert buffer + Flatten(chunks) == a + rest;
      WellFormedSplit(a, rest);
      NothingDelivered(Drain(a).rest, chunks[1..]);
    }
  }

  /** Each byte a chunk of its own. */
  function Bytewise(s: Bytes): (chunks: seq<Bytes>)
    ensures |chunks| == |s|
  {
    if s == [] then [] else [[s[0]]] + Bytewise(s[1..])
  }

  lemma {:induction false} BytewiseFlat(s: Bytes)
    ensures Flatten(Bytewise(s)) == s
  {
    if s != [] {
      BytewiseFlat(s[1..]);
      FlattenFront(Bytewise(s));
      assert Bytewise(s)[1..] == Bytewise(s[1..]);
      assert [s[0]] + s[1..] == s;
    }
  }

  /** A byte completes at most one frame, and then nothing follows it. */
  lemma OneByteMore(buffer: Bytes, c: Byte)
    requires !Complete(buffer) && Complete(buffer + [c])
    ensures |buffer + [c]| == FRAME_HEADER_SIZE + FrameLength(buffer + [c])
  {
    if |buffer| >= FRAME_HEADER_SIZE {
      assert (buffer + [c])[0..3] == buffer[0..3];
    }
  }

  /** Byte by byte, every well-formed frame is delivered, malformed ones or not. */
  lemma {:induction false} BytewiseDelivers(buffer: Bytes, s: Bytes)
    requires !Complete(buffer)
    ensures Delivered(buffer, Bytewise(s)) == WellFormed(buffer + s)
    decreases |s|
  {
    hide Drain, WellFormed, Complete, FrameLength, ParseFrame;
    if s == [] {
      assert buffer + [] == buffer;
      WellFormedNone(buffer);
    } else {
      var a := buffer + [s[0]];
      assert Bytewise(s)[1..] == Bytewise(s[1..]) && buffer + s == a + s[1..];
      WellFormedSplit(a, s[1..]);
      if Complete(a) {
        OneByteMore(buffer, s[0]);
        T.DrainStep(a);
        assert a[|a|..] == [];
        EmptyIncomplete();
        T.NotComplete([]);
      } else {
        T.NotComplete(a);
      }
      BytewiseDelivers(Drain(a).rest, s[1..]);
      if Drain(a).failed {
        assert Drain(a).frames == [];
      }
    }
  }

  lemma EmptyIncomplete()
    ensures !Complete([])
  {
  }

  // ----- the frames of a stream, by their bytes -----

  /** Offset `at` of the stream is where a frame begins: the complete frames before it end there. */
  predicate FrameStart(s: Bytes, at: nat)
    decreases at
  {
    at == 0
    || (Complete(s) && FRAME_HEADER_SIZE + FrameLength(s) <= at
        && FrameStart(s[FRAME_HEADER_SIZE + FrameLength(s)..], at - (FRAME_HEADER_SIZE + FrameLength(s))))
  }

  /** A DATA frame that says it is padded but has no body, or a pad length that is not below the body length. */
  predicate BadPadding(b: Bytes)
    requires Complete(b)
  {
    b[3] == TYPE_DATA && b[4] / FLAG_PADDED % 2 == 1 && (FrameLength(b) == 0 || b[FRAME_HEADER_SIZE] >= FrameLength(b))
  }

  predicate BadFrameAt(s: Bytes, at: nat) {
    at <= |s| && FrameStart(s, at) && Complete(s[at..]) && BadPadding(s[at..])
  }

  predicate GoodFrameAt(s: Bytes, at: nat) {
    at <= |s| && FrameStart(s, at) && Complete(s[at..]) && !BadPadding(s[at..])
  }

  /** Parsing the front frame fails exactly when its padding is bad. */
  lemma ParsesUnlessBad(b: Bytes)
    requires Complete(b)
    ensures var total := FRAME_HEADER_SIZE + FrameLength(b);
            Complete(b[..total]) && (ParseFrame(b[..total]).Err? <==> BadPadding(b))
  {
    var total := FRAME_HEADER_SIZE + FrameLength(b);
    var front := b[..total];
    assert front[0..3] == b[0..3] && front[3] == b[3] && front[4] == b[4];
    assert front[FRAME_HEADER_SIZE..total] == b[FRAME_HEADER_SIZE..total];
  }

  /** The frames behind the first one are the frames of what is left. */
  lemma FrameBehind(s: Bytes, at: nat)
    requires Complete(s) && at > 0
    ensures var total := FRAME_HEADER_SIZE + FrameLength(s);
            && (BadFrameAt(s, at) <==> at >= total && BadFrameAt(s[total..], at - total))
            && (GoodFrameAt(s, at) <==> at >= total && GoodFrameAt(s[total..], at - total))
  {
    hide BadPadding;
    var total := FRAME_HEADER_SIZE + FrameLength(s);
    if at >= total && at <= |s| {
      assert s[total..][at - total..] == s[at..];
    }
  }

  lemma FirstFrame(s: Bytes)
    requires Complete(s)
    ensures BadFrameAt(s, 0) <==> BadPadding(s)
    ensures GoodFrameAt(s, 0) <==> !BadPadding(s)
  {
    hide BadPadding;
    assert s[0..] == s;
  }

  lemma NoFrames(s: Bytes, at: nat)
    requires !Complete(s)
    ensures !BadFrameAt(s, at) && !GoodFrameAt(s, at)
  {
    hide BadPadding;
    assert at == 0 ==> s[at..] == s;
  }

  /** One append stops at a malformed frame exactly when the stream holds one. */
  lemma {:induction false} FailsExactlyWhen(s: Bytes)
    ensures Drain(s).failed <==> exists at: nat :: BadFrameAt(s, at)
    decreases |s|
  {
    hide ParseFrame, Complete, FrameLength, Drain, BadPadding, BadFrameAt, GoodFrameAt;
    if !Complete(s) {
      T.NotComplete(s);
      forall at: nat | BadFrameAt(s, at)
        ensures false
      {
        NoFrames(s, at);
      }
    } else {
      T.DrainStep(s);
      ParsesUnlessBad(s);
      FirstFrame(s);
      var total := FRAME_HEADER_SIZE + FrameLength(s);
      if !BadPadding(s) {
        FailsExactlyWhen(s[total..]);
        if Drain(s).failed {
          var at: nat :| BadFrameAt(s[total..], at);
          FrameBehind(s, at + total);
          assert BadFrameAt(s, at + total);
        }
        forall at: nat | BadFrameAt(s, at)
          ensures Drain(s).failed
        {
          FrameBehind(s, at);
          assert BadFrameAt(s[total..], at - total);
        }
      }
    }
  }

  /** Something is well formed exactly when the stream holds a frame that is not malformed. */
  lemma {:induction false} WellFormedExactlyWhen(s: Bytes)
    ensures WellFormed(s) != [] <==> exists at: nat :: GoodFrameAt(s, at)
    decreases |s|
  {
    hide ParseFrame, Complete, FrameLength, WellFormed, BadPadding, BadFrameAt, GoodFrameAt;
    if !Complete(s) {
      WellFormedNone(s);
      forall at: nat | GoodFrameAt(s, at)
        ensures false
      {
        NoFrames(s, at);
      }
    } else {
      WellFormedStep(s);
      ParsesUnlessBad(s);
      FirstFrame(s);
      var total := FRAME_HEADER_SIZE + FrameLength(s);
      if BadPadding(s) {
        assert WellFormed(s) == WellFormed(s[total..]);
        WellFormedExactlyWhen(s[total..]);
        if WellFormed(s) != [] {
          var at: nat :| GoodFrameAt(s[total..], at);
          FrameBehind(s, at + total);
          assert GoodFrameAt(s, at + total);
        }
        forall at: nat | GoodFrameAt(s, at)
          ensures WellFormed(s) != []
        {
          FrameBehind(s, at);
          assert GoodFrameAt(s[total..], at - total);
        }
      }
    }
  }

  /**
   * Every chunking of a stream delivers all its well-formed frames exactly when the stream does not hold
   * both a frame with bad padding and a frame without: the first makes an append throw, and the second is
   * lost with it.
   */
  lemma ChunkingExactlyWhen(s: Bytes)
    ensures (forall chunks: seq<Bytes> :: Flatten(chunks) == s ==> Delivered([], chunks) == WellFormed(s))
            <==> !((exists at: nat :: BadFrameAt(s, at)) && exists at: nat :: GoodFrameAt(s, at))
  {
    hide Drain, WellFormed, Complete, Flatten, BadFrameAt, GoodFrameAt;
    assert [] + s == s;
    EmptyIncomplete();
    FailsExactlyWhen(s);
    WellFormedExactlyWhen(s);
    if !Drain(s).failed || WellFormed(s) == [] {
      forall chunks: seq<Bytes> | Flatten(chunks) == s
        ensures Delivered([], chunks) == WellFormed(s)
      {
        if !Drain(s).failed {
          CleanDelivers([], chunks);
        } else {
          NothingDelivered([], chunks);
        }
      }
    } else {
      OneChunk(s);
    }
  }

  /** In one chunk, a malformed frame takes everything with it. */
  lemma OneChunk(s: Bytes)
    requires Drain(s).failed
    ensures Flatten([s]) == s && Delivered([], [s]) == []
  {
    hide Drain, Complete, Flatten;
    FlattenFront([s]);
    NoChunks();
    var one: seq<Bytes> := [s];
    assert one[1..] == [] && s + [] == s && [] + s == s;
  }
}
