/** AFC packets: the 40-byte header, the reader's header-then-payload program, and the replies it decodes. */
module AfcPackets {
  import opened Bytes
  import opened Wrappers
  import opened AfcReads
  import T = AfcReadTheorems

  /** "CFA6LPAA". */
  const AFCMAGIC: Bytes := [67, 70, 65, 54, 76, 80, 65, 65]
  const AFC_HEADER_SIZE: nat := 40
  const STATUS: nat := 1
  const DATA: nat := 2

  /** A request: operation, header payload and content. */
  datatype Packet = Packet(op: nat, headerPayload: Bytes, content: Bytes)

  function EncodeHeader(op: nat, num: nat, entireLength: nat, thisLength: nat): (h: Bytes)
    ensures |h| == AFC_HEADER_SIZE
  {
    AFCMAGIC + LE(entireLength, 8) + LE(thisLength, 8) + LE(num, 8) + LE(op, 8)
  }

  /** The three writes of `sendAfcPacket`. */
  function Parts(p: Packet, num: nat): (r: seq<Bytes>)
    ensures |r| == 3
  {
    var thisLength := AFC_HEADER_SIZE + |p.headerPayload|;
    [EncodeHeader(p.op, num, thisLength + |p.content|, thisLength), p.headerPayload, p.content]
  }

  // ----- what the reader asks for -----

  function EntireLength(h: Bytes): nat
    requires |h| == AFC_HEADER_SIZE
  {
    FromLE(h[8..16])
  }

  /** The payload still to be read after a header; none when the length says so. */
  function PayloadAfter(h: Bytes): nat {
    if |h| == AFC_HEADER_SIZE && EntireLength(h) > AFC_HEADER_SIZE then EntireLength(h) - AFC_HEADER_SIZE else 0
  }

  /** The payload length awaited after these blocks, 0 when a header comes next. */
  function Awaited(blocks: seq<Bytes>): nat {
    if blocks == [] then 0
    else if Awaited(blocks[..|blocks| - 1]) > 0 then 0
    else PayloadAfter(blocks[|blocks| - 1])
  }

  /** The reader loop as a program of reads. */
  function ReplyProgram(blocks: seq<Bytes>): (n: nat)
    ensures n > 0
  {
    if Awaited(blocks) > 0 then Awaited(blocks) else AFC_HEADER_SIZE
  }

  datatype Reply = Reply(num: nat, op: nat, payload: Bytes)

  function HeaderReply(h: Bytes, payload: Bytes): Reply
    requires |h| == AFC_HEADER_SIZE
  {
    Reply(FromLE(h[24..32]), FromLE(h[32..40]), payload)
  }

  /** The replies completed by a list of blocks. */
  function Replies(blocks: seq<Bytes>): seq<Reply> {
    if blocks == [] then []
    else
      var init, last := blocks[..|blocks| - 1], blocks[|blocks| - 1];
      if Awaited(init) > 0 then
        if init != [] && |init[|init| - 1]| == AFC_HEADER_SIZE
        then Replies(init) + [HeaderReply(init[|init| - 1], last)] else Replies(init)
      else if |last| == AFC_HEADER_SIZE && PayloadAfter(last) == 0 then Replies(init) + [HeaderReply(last, [])]
      else Replies(init)
  }

  datatype Meaning = Meaning(status: nat, data: Bytes)

  /** Status and data of a reply; a STATUS reply without 8 bytes throws. */
  function Interpret(r: Reply): Result<Meaning, ()> {
    if r.op == STATUS then
      if |r.payload| < 8 then Err(()) else Ok(Meaning(FromLE(r.payload[..8]), []))
    else Ok(Meaning(0, r.payload))
  }

  // ----- a stream of replies -----

  predicate Representable(r: Reply) {
    r.num < TWO64 && r.op < TWO64 && AFC_HEADER_SIZE + |r.payload| < TWO64
  }

  function EncodeReply(r: Reply): Bytes {
    EncodeHeader(r.op, r.num, AFC_HEADER_SIZE + |r.payload|, AFC_HEADER_SIZE + |r.payload|) + r.payload
  }

  function EncodeReplies(rs: seq<Reply>): Bytes {
    if rs == [] then [] else EncodeReply(rs[0]) + EncodeReplies(rs[1..])
  }

  lemma HeaderFields(op: nat, num: nat, entire: nat, thisLen: nat)
    requires op < TWO64 && num < TWO64 && entire < TWO64
    ensures var h := EncodeHeader(op, num, entire, thisLen);
            h[..8] == AFCMAGIC && EntireLength(h) == entire && FromLE(h[24..32]) == num && FromLE(h[32..40]) == op
  {
    var h := EncodeHeader(op, num, entire, thisLen);
    Pow256Values();
    assert h[8..16] == LE(entire, 8) && h[24..32] == LE(num, 8) && h[32..40] == LE(op, 8);
    LERoundTrip(entire, 8);
    LERoundTrip(num, 8);
    LERoundTrip(op, 8);
  }

  lemma CutStep(blocks: seq<Bytes>, block: Bytes, rest: Bytes)
    requires T.AlwaysAsks(ReplyProgram) && |block| == ReplyProgram(blocks)
    ensures T.Cut(ReplyProgram, blocks, block + rest) == T.Cut(ReplyProgram, blocks + [block], rest)
  {
    var b := block + rest;
    assert b[..|block|] == block && b[|block|..] == rest;
  }

  /** The blocks of one reply. */
  function ReplyBlocks(r: Reply): seq<Bytes> {
    var h := EncodeHeader(r.op, r.num, AFC_HEADER_SIZE + |r.payload|, AFC_HEADER_SIZE + |r.payload|);
    if r.payload == [] then [h] else [h] + [r.payload]
  }

  lemma OneMoreBlock(blocks: seq<Bytes>, block: Bytes)
    ensures Awaited(blocks + [block]) == if Awaited(blocks) > 0 then 0 else PayloadAfter(block)
    ensures Awaited(blocks) == 0 && |block| == AFC_HEADER_SIZE ==>
              Replies(blocks + [block])
              == if PayloadAfter(block) == 0 then Replies(blocks) + [HeaderReply(block, [])] else Replies(blocks)
  {
    assert (blocks + [block])[..|blocks|] == blocks;
  }

  lemma PayloadBlock(blocks: seq<Bytes>, h: Bytes, payload: Bytes)
    requires |h| == AFC_HEADER_SIZE && Awaited(blocks + [h]) > 0
    ensures Replies(blocks + [h] + [payload]) == Replies(blocks + [h]) + [HeaderReply(h, payload)]
  {
    var init := blocks + [h];
    assert (init + [payload])[..|init|] == init && init[|init| - 1] == h;
  }

  lemma OneReply(blocks: seq<Bytes>, r: Reply, tail: Bytes)
    requires T.AlwaysAsks(ReplyProgram) && Awaited(blocks) == 0 && Representable(r)
    ensures var b := blocks + ReplyBlocks(r);
            && T.Cut(ReplyProgram, blocks, EncodeReply(r) + tail) == T.Cut(ReplyProgram, b, tail)
            && Awaited(b) == 0 && Replies(b) == Replies(blocks) + [r]
  {
    hide T.Cut, EncodeHeader, EntireLength, Awaited, Replies;
    var n := AFC_HEADER_SIZE + |r.payload|;
    var h := EncodeHeader(r.op, r.num, n, n);
    HeaderFields(r.op, r.num, n, n);
    OneMoreBlock(blocks, h);
    if r.payload == [] {
      assert EncodeReply(r) + tail == h + tail;
      CutStep(blocks, h, tail);
    } else {
      assert EncodeReply(r) + tail == h + (r.payload + tail);
      CutStep(blocks, h, r.payload + tail);
      CutStep(blocks + [h], r.payload, tail);
      OneMoreBlock(blocks + [h], r.payload);
      PayloadBlock(blocks, h, r.payload);
      assert blocks + [h] + [r.payload] == blocks + ReplyBlocks(r);
    }
  }

  /** Cutting encoded replies off a stream completes exactly those replies. */
  lemma {:induction false} CutReplies(blocks: seq<Bytes>, rs: seq<Reply>)
    requires T.AlwaysAsks(ReplyProgram) && Awaited(blocks) == 0 && forall r :: r in rs ==> Representable(r)
    ensures var (bs, rest) := T.Cut(ReplyProgram, blocks, EncodeReplies(rs));
            rest == [] && Replies(bs) == Replies(blocks) + rs
    decreases |rs|
  {
    hide T.Cut, EncodeReply, Awaited, Replies, Representable, ReplyBlocks;
    if rs == [] {
      CutEmpty(blocks);
      assert Replies(blocks) + rs == Replies(blocks);
    } else {
      OneReply(blocks, rs[0], EncodeReplies(rs[1..]));
      CutReplies(blocks + ReplyBlocks(rs[0]), rs[1..]);
      assert Replies(blocks) + [rs[0]] + rs[1..] == Replies(blocks) + rs;
    }
  }

  lemma CutEmpty(blocks: seq<Bytes>)
    requires T.AlwaysAsks(ReplyProgram)
    ensures T.Cut(ReplyProgram, blocks, []) == (blocks, [])
  {
  }

  /**
   * However the replies are chunked and however chunks and reads interleave, once the reader waits it
   * has seen exactly the replies sent, in order, each with its own payload.
   */
  lemma ReaderSeesReplies(ts: seq<T.Turn>, rs: seq<Reply>)
    requires forall r :: r in rs ==> Representable(r)
    requires var s := T.SingleRun(ReplyProgram, ts); s.received == EncodeReplies(rs) && s.waiters != []
    ensures Replies(T.SingleRun(ReplyProgram, ts).delivered) == rs
  {
    hide T.SingleRun, T.Cut;
    assert T.AlwaysAsks(ReplyProgram);
    T.SingleReaderSeesTheCut(ReplyProgram, ts);
    CutReplies([], rs);
    assert Replies([]) + rs == rs;
  }
}
