/** The bytes of AFC packets, field by field. */
module AfcWire {
  import opened Bytes
  import opened AfcPackets

  /** "CFA6LPAA", then the whole length, the length without content, the number and the operation. */
  predicate IsHeader(d: Bytes, whole: nat, front: nat, num: nat, op: nat) {
    && |d| >= 40 && d[..8] == [0x43, 0x46, 0x41, 0x36, 0x4c, 0x50, 0x41, 0x41]
    && FromLE(d[8..16]) == whole && FromLE(d[16..24]) == front && FromLE(d[24..32]) == num && FromLE(d[32..40]) == op
  }

  lemma HeaderBytes(op: nat, num: nat, whole: nat, front: nat)
    requires op < TWO64 && num < TWO64 && whole < TWO64 && front < TWO64
    ensures |EncodeHeader(op, num, whole, front)| == 40
            && IsHeader(EncodeHeader(op, num, whole, front), whole, front, num, op)
  {
    hide LE, FromLE;
    Pow256Values();
    var h := EncodeHeader(op, num, whole, front);
    assert h[8..16] == LE(whole, 8) && h[16..24] == LE(front, 8) && h[24..32] == LE(num, 8) && h[32..40] == LE(op, 8);
    LERoundTrip(whole, 8);
    LERoundTrip(front, 8);
    LERoundTrip(num, 8);
    LERoundTrip(op, 8);
  }

  /** A request on the wire: its header with the two lengths, the header payload, the content. */
  lemma PacketBytes(p: Packet, num: nat)
    requires p.op < TWO64 && num < TWO64 && 40 + |p.headerPayload| + |p.content| < TWO64
    ensures var d := Flatten(Parts(p, num));
            && IsHeader(d, 40 + |p.headerPayload| + |p.content|, 40 + |p.headerPayload|, num, p.op)
            && d[40..] == p.headerPayload + p.content
  {
    hide EncodeHeader, FromLE;
    var front := 40 + |p.headerPayload|;
    var h := EncodeHeader(p.op, num, front + |p.content|, front);
    HeaderBytes(p.op, num, front + |p.content|, front);
    ThreeParts(h, p.headerPayload, p.content);
    HeaderInFront(h, p.headerPayload + p.content, front + |p.content|, front, num, p.op);
  }

  lemma ThreeParts(a: Bytes, b: Bytes, c: Bytes)
    ensures Flatten([a, b, c]) == a + (b + c)
  {
    assert [a, b, c][..2] == [a, b] && [a, b][..1] == [a] && [a][..0] == [];
    assert Flatten([a]) == [] + a == a;
    assert Flatten([a, b]) == a + b;
  }

  lemma HeaderInFront(h: Bytes, rest: Bytes, whole: nat, front: nat, num: nat, op: nat)
    requires |h| == 40 && IsHeader(h, whole, front, num, op)
    ensures IsHeader(h + rest, whole, front, num, op) && (h + rest)[40..] == rest
  {
    hide FromLE;
    var d := h + rest;
    assert d[..8] == h[..8] && d[8..16] == h[8..16] && d[16..24] == h[16..24] && d[24..32] == h[24..32];
    assert d[32..40] == h[32..40];
  }

  /** A reply on the wire, as `ReaderSeesReplies` takes it. */
  lemma ReplyBytes(r: Reply)
    requires Representable(r)
    ensures var d := EncodeReply(r);
            IsHeader(d, 40 + |r.payload|, 40 + |r.payload|, r.num, r.op) && d[40..] == r.payload
  {
    hide EncodeHeader, FromLE;
    var n := 40 + |r.payload|;
    HeaderBytes(r.op, r.num, n, n);
    HeaderInFront(EncodeHeader(r.op, r.num, n, n), r.payload, n, n, r.num, r.op);
  }

  /** How any header block is read: the payload it announces, and the number and operation of its reply. */
  lemma HeaderRead(h: Bytes, payload: Bytes)
    requires |h| == 40
    ensures Replies([]) == [] && ReplyProgram([]) == 40
    ensures FromLE(h[8..16]) <= 40 ==> Replies([h]) == [Reply(FromLE(h[24..32]), FromLE(h[32..40]), [])]
    ensures FromLE(h[8..16]) > 40 ==>
              && Replies([h]) == [] && ReplyProgram([h]) == FromLE(h[8..16]) - 40
              && Replies([h, payload]) == [Reply(FromLE(h[24..32]), FromLE(h[32..40]), payload)]
  {
    hide FromLE;
    assert [h][..0] == [] && [h, payload][..1] == [h];
  }
}
