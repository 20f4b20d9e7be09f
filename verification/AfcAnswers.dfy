/** What a reply, a timer and a failure do to the requests of the AFC demultiplexer they are for. */
module AfcAnswers {
  import opened Bytes
  import opened Wrappers
  import opened AfcDemuxSpec
  import opened AfcDemuxTheorems
  import P = AfcPackets
  import O = ByteOrder

  // ----- what a reply says -----

  /** Opcode 1 carries a status of 8 little-endian bytes and no data; any other carries its whole payload. */
  lemma ReplyMeans(reply: P.Reply)
    ensures reply.op == 1 && |reply.payload| >= 8 ==>
              P.Interpret(reply) == Ok(P.Meaning(FromLE(reply.payload[..4])
                                                 + 0x1_0000_0000 * FromLE(reply.payload[4..8]), []))
    ensures reply.op == 1 && |reply.payload| < 8 ==> P.Interpret(reply).Err?
    ensures reply.op != 1 ==> P.Interpret(reply) == Ok(P.Meaning(0, reply.payload))
  {
    if reply.op == 1 && |reply.payload| >= 8 {
      var s := reply.payload[..8];
      O.EightBytes(s);
      assert s[..4] == reply.payload[..4] && s[4..] == reply.payload[4..8];
    }
  }

  // ----- settling one request -----

  /** The promise of `r` is settled with `o`: a waiting request is done, one still writing knows its end. */
  predicate SettledWith(s: State, t: State, r: Req, o: Outcome) {
    && r in s.phases && r in t.phases
    && (s.phases[r].Waiting? ==> t.phases[r] == Done(o) && t.lock == None)
    && (s.phases[r].Writing? ==>
          t.phases[r] == Writing(s.phases[r].sock, s.phases[r].num, s.phases[r].part, Settled(o)) && t.lock == Some(r))
  }

  /** Nobody else is touched, and nothing is sent. */
  predicate OthersKept(s: State, t: State, r: Req) {
    && t.phases.Keys == s.phases.Keys && (forall q :: q in s.phases && q != r ==> t.phases[q] == s.phases[q])
    && t.packets == s.packets && t.packetNum == s.packetNum && t.stopped == s.stopped
        && t.readerSocket == s.readerSocket
    && t.readerActive == s.readerActive && t.wire == s.wire && t.sent == s.sent && t.epoch == s.epoch
        && t.failed == s.failed
  }

  lemma RegisteredIsOpen(s: State, num: nat)
    requires Exclusive(s) && num in s.pending
    ensures var r := s.pending[num];
            r in s.phases && (s.phases[r].Waiting? || (s.phases[r].Writing? && s.phases[r].promise.Unsettled?))
            && s.phases[r].num == num && s.lock == Some(r)
  {
    assert InFlight(s.phases[s.pending[num]]);
  }

  lemma OneSettled(s: State, num: nat, o: Outcome, t: State)
    requires Exclusive(s) && num in s.pending
    requires var r := s.pending[num];
             var u := s.(pending := s.pending - {num}, timers := s.timers - {r}, replies := t.replies);
             t == SettleOne(u, r, o)
    ensures var r := s.pending[num];
            SettledWith(s, t, r, o) && OthersKept(s, t, r) && t.pending == s.pending - {num}
                && t.timers == s.timers - {r}
  {
    RegisteredIsOpen(s, num);
  }

  /**
   * A readable reply ends the request registered under its number, with that reply's own status and data:
   * its number and its timer are gone, the lock is free when it was waiting, and nobody else is touched.
   */
  lemma ReplyAnswers(es: seq<Event>, sock: Sock, reply: P.Reply)
    requires P.Interpret(reply).Ok? && reply.num in Run(INITIAL, es).pending
    ensures var s, t := Run(INITIAL, es), Run(INITIAL, es + [ReplyArrives(sock, reply)]);
            var r := s.pending[reply.num];
            && SettledWith(s, t, r, Replied(sock, reply.num, P.Interpret(reply).value)) && OthersKept(s, t, r)
            && t.pending == s.pending - {reply.num} && t.timers == s.timers - {r}
            && t.replies == s.replies + [Arrival(sock, reply, |s.sent|)]
  {
    hide Run, Exclusive, SettleOne, P.Interpret, SettledWith, OthersKept;
    AlwaysExclusive(es);
    RunMore(INITIAL, es, ReplyArrives(sock, reply));
    var s := Run(INITIAL, es);
    var t := Step(s, ReplyArrives(sock, reply));
    SettleKeepsReplies(s.(replies := s.replies + [Arrival(sock, reply, |s.sent|)], pending := s.pending - {reply.num},
                          timers := s.timers - {s.pending[reply.num]}),
                       s.pending[reply.num], Replied(sock, reply.num, P.Interpret(reply).value));
    OneSettled(s, reply.num, Replied(sock, reply.num, P.Interpret(reply).value), t);
  }

  lemma SettleKeepsReplies(s: State, r: Req, o: Outcome)
    ensures SettleOne(s, r, o).replies == s.replies
  {
  }

  /** A readable reply nobody waits for changes nothing but the record. */
  lemma StrayReplyIgnored(s: State, sock: Sock, reply: P.Reply)
    requires P.Interpret(reply).Ok? && reply.num !in s.pending
    ensures Step(s, ReplyArrives(sock, reply)) == s.(replies := s.replies + [Arrival(sock, reply, |s.sent|)])
  {
  }

  /** A status reply too short to read fails the reader. */
  lemma UnreadableReply(s: State, sock: Sock, reply: P.Reply)
    requires reply.op == 1 && |reply.payload| < 8
    ensures Step(s, ReplyArrives(sock, reply)) == Step(s, ReaderFail(sock))
  {
  }

  /** The timer of a registered request ends it with a timeout. */
  lemma TimerAnswers(es: seq<Event>, r: Req)
    requires var s := Run(INITIAL, es); r in s.timers && s.timers[r] in s.pending && s.pending[s.timers[r]] == r
    ensures var s, t := Run(INITIAL, es), Run(INITIAL, es + [Timeout(r)]);
            && SettledWith(s, t, r, TimedOut) && OthersKept(s, t, r)
            && t.pending == s.pending - {s.timers[r]} && t.timers == s.timers - {r} && t.replies == s.replies
  {
    hide Run, Exclusive, SettleOne, SettledWith, OthersKept;
    AlwaysExclusive(es);
    RunMore(INITIAL, es, Timeout(r));
    var s := Run(INITIAL, es);
    SettleKeepsReplies(s.(pending := s.pending - {s.timers[r]}, timers := s.timers - {r}), r, TimedOut);
    OneSettled(s, s.timers[r], TimedOut, Step(s, Timeout(r)));
  }

  /** Every registered request is settled with `o`, everyone else is left alone. */
  predicate AllSettledWith(s: State, t: State, o: Outcome) {
    && t.phases.Keys == s.phases.Keys && t.pending == map[] && t.timers == s.timers - s.pending.Values
    && (forall num :: num in s.pending ==> SettledWith(s, t, s.pending[num], o))
    && (forall q :: q in s.phases && q !in s.pending.Values ==> t.phases[q] == s.phases[q])
    && t.packets == s.packets && t.wire == s.wire && t.sent == s.sent && t.failed == s.failed && t.replies == s.replies
  }

  lemma FailAnswers(s: State, o: Outcome)
    requires Exclusive(s)
    ensures AllSettledWith(s, FailPending(s, o), o)
  {
    var t := FailPending(s, o);
    forall num | num in s.pending
      ensures SettledWith(s, t, s.pending[num], o)
    {
      RegisteredIsOpen(s, num);
    }
  }

  /** Stopping, a replaced socket and a reader that fails reject every registered request, each its own way. */
  lemma FailureAnswers(es: seq<Event>, sock: Sock)
    ensures var s := Run(INITIAL, es);
            && (var t := Run(INITIAL, es + [Stop]); AllSettledWith(s, t, Stopped) && t.stopped)
            && (var t := Run(INITIAL, es + [Reset]);
                AllSettledWith(s, t, Replaced) && !t.stopped && t.packetNum == 0 && t.readerSocket == None)
            && (!s.stopped && s.readerSocket == Some(sock) ==>
                  AllSettledWith(s, Run(INITIAL, es + [ReaderFail(sock)]), ReaderFailed))
            && (s.stopped || s.readerSocket != Some(sock) ==>
                  Run(INITIAL, es + [ReaderFail(sock)]).phases == s.phases
                  && Run(INITIAL, es + [ReaderFail(sock)]).pending == s.pending)
  {
    hide Run, Exclusive, FailPending, SettledWith;
    AlwaysExclusive(es);
    RunMore(INITIAL, es, Stop);
    RunMore(INITIAL, es, Reset);
    RunMore(INITIAL, es, ReaderFail(sock));
    var s := Run(INITIAL, es);
    StoppedExclusive(s);
    FailAnswers(s, ReaderFailed);
    FailAnswers(s, Replaced);
    FailAnswers(s.(stopped := true), Stopped);
    SettledAside(s, s.(stopped := true), FailPending(s.(stopped := true), Stopped), Step(s, Stop), Stopped);
    SettledAside(s, s, FailPending(s, Replaced), Step(s, Reset), Replaced);
    SettledAside(s, s, FailPending(s, ReaderFailed), FailPending(s, ReaderFailed).(readerActive := false),
                 ReaderFailed);
    FailKeeps(s, ReaderFailed);
    FailKeeps(s.(stopped := true), Stopped);
  }

  lemma StoppedExclusive(s: State)
    requires Exclusive(s)
    ensures Exclusive(s.(stopped := true))
  {
  }

  lemma FailKeeps(s: State, o: Outcome)
    ensures FailPending(s, o).readerSocket == s.readerSocket && FailPending(s, o).stopped == s.stopped
  {
  }

  /** Fields that say nothing of requests may differ. */
  lemma SettledAside(s: State, s1: State, t1: State, t: State, o: Outcome)
    requires AllSettledWith(s1, t1, o) && s1 == s.(stopped := s1.stopped)
    requires t == t1.(stopped := t.stopped, readerSocket := t.readerSocket, readerActive := t.readerActive,
                      packetNum := t.packetNum, epoch := t.epoch)
    ensures AllSettledWith(s, t, o)
  {
  }

  /** A write that throws ends its request and frees the number and the lock; the timer stays armed. */
  lemma FailedWriteAnswers(es: seq<Event>, r: Req)
    requires var s := Run(INITIAL, es); r in s.phases && s.phases[r].Writing?
    ensures var s, t := Run(INITIAL, es), Run(INITIAL, es + [WriteFail(r)]);
            && r in t.phases && t.phases[r] == Done(WriteFailed) && t.lock == None
            && t.pending == s.pending - {s.phases[r].num} && t.timers == s.timers
            && forall q :: q in s.phases && q != r ==> q in t.phases && t.phases[q] == s.phases[q]
  {
    hide Run;
    AlwaysExclusive(es);
    RunMore(INITIAL, es, WriteFail(r));
  }

  /** Without a socket, or once stopped, a request ends before it is sent. */
  lemma Refused(s: State, r: Req, packet: P.Packet, sock: Sock)
    ensures r !in s.phases && s.stopped ==>
              var t := Step(s, Call(r, packet)); r in t.phases && t.phases[r] == Done(Stopped) && t.sent == s.sent
    ensures r in s.phases && s.phases[r].WantSocket? ==>
              && Step(s, SocketRefused(r)).phases == s.phases[r := Done(NoSocket)]
              && (s.stopped ==> Step(s, GotSocket(r, sock)).phases == s.phases[r := Done(Stopped)])
  {
  }

  // ----- from call to answer -----

  /** Once written, a request that was settled on the way is done. */
  lemma WrittenAndSettled(s: State, r: Req, sock: Sock, num: nat, o: Outcome)
    requires r in s.phases && s.phases[r] == Writing(sock, num, 3, Settled(o)) && s.lock == Some(r)
    ensures var t := Step(s, WriteDone(r)); t.phases[r] == Done(o) && t.lock == None
  {
  }

  /** Request `r` is being written under `num`, `part` writes made, on a wire that held `before`. */
  predicate Writes(s: State, r: Req, packet: P.Packet, sock: Sock, num: nat, part: nat, before: Bytes) {
    && r in s.phases && s.phases[r] == Writing(sock, num, part, Unsettled) && r in s.packets && s.packets[r] == packet
    && s.lock == Some(r) && num in s.pending && s.pending[num] == r && r in s.timers && s.timers[r] == num && part <= 3
    && WireAt(s, sock) == before + Flatten(P.Parts(packet, num)[..part])
  }

  /** A call, a socket and the lock: the request takes the next number, is registered and its timer armed. */
  lemma Started(s: State, r: Req, packet: P.Packet, sock: Sock)
    requires r !in s.phases && !s.stopped && s.lock == None
    ensures var t := Step(Step(Step(s, Call(r, packet)), GotSocket(r, sock)), Acquire(r));
            && Writes(t, r, packet, sock, s.packetNum, 0, WireAt(s, sock)) && t.packetNum == s.packetNum + 1
            && t.sent == s.sent + [Sent(r, sock, s.packetNum)] && t.readerSocket == Some(sock) && t.readerActive
  {
    hide P.Parts;
    assert P.Parts(packet, s.packetNum)[..0] == [];
    assert WireAt(s, sock) + [] == WireAt(s, sock);
  }

  lemma OneWrite(s: State, r: Req, packet: P.Packet, sock: Sock, num: nat, part: nat, before: Bytes)
    requires Writes(s, r, packet, sock, num, part, before) && part < 3
    ensures Writes(Step(s, WritePart(r)), r, packet, sock, num, part + 1, before)
  {
    hide P.Parts, Flatten;
    var parts := P.Parts(packet, num);
    OneMorePart(parts, part);
    Regrouped(before, Flatten(parts[..part]), parts[part]);
  }

  lemma LastWrite(s: State, r: Req, packet: P.Packet, sock: Sock, num: nat, before: Bytes)
    requires Writes(s, r, packet, sock, num, 3, before)
    ensures var t := Step(s, WriteDone(r));
            && r in t.phases && t.phases[r] == Waiting(sock, num) && t.lock == Some(r) && num in t.pending
            && t.pending[num] == r && WireAt(t, sock) == before + Flatten(P.Parts(packet, num))
  {
    hide P.Parts, Flatten;
    assert P.Parts(packet, num)[..3] == P.Parts(packet, num);
  }

  lemma LastAnswer(s: State, r: Req, sock: Sock, num: nat, from: Sock, reply: P.Reply)
    requires r in s.phases && s.phases[r] == Waiting(sock, num) && s.lock == Some(r) && num in s.pending
             && s.pending[num] == r
    requires P.Interpret(reply).Ok? && reply.num == num
    ensures var t := Step(s, ReplyArrives(from, reply));
            && r in t.phases && t.phases[r] == Done(Replied(from, num, P.Interpret(reply).value)) && t.lock == None
            && num !in t.pending && t.wire == s.wire
  {
    hide P.Interpret;
  }

  /**
   * From any state with a free lock, the whole exchange: the packet goes out under the next number, as one
   * piece, and the reply with that number gives the request its status and data and frees the lock.
   */
  lemma Exchanged(s: State, r: Req, packet: P.Packet, sock: Sock, from: Sock, reply: P.Reply)
    requires r !in s.phases && !s.stopped && s.lock == None && P.Interpret(reply).Ok? && reply.num == s.packetNum
    ensures var t := Run(s, [Call(r, packet), GotSocket(r, sock), Acquire(r), WritePart(r), WritePart(r), WritePart(r),
                             WriteDone(r), ReplyArrives(from, reply)]);
            && r in t.phases && t.phases[r] == Done(Replied(from, reply.num, P.Interpret(reply).value))
                && t.lock == None
            && WireAt(t, sock) == WireAt(s, sock) + Flatten(P.Parts(packet, s.packetNum))
  {
    hide Step, P.Parts, P.Interpret, Writes, Flatten, WireAt;
    var before, num := WireAt(s, sock), s.packetNum;
    Started(s, r, packet, sock);
    var s3 := Step(Step(Step(s, Call(r, packet)), GotSocket(r, sock)), Acquire(r));
    OneWrite(s3, r, packet, sock, num, 0, before);
    var s4 := Step(s3, WritePart(r));
    OneWrite(s4, r, packet, sock, num, 1, before);
    var s5 := Step(s4, WritePart(r));
    OneWrite(s5, r, packet, sock, num, 2, before);
    var s6 := Step(s5, WritePart(r));
    LastWrite(s6, r, packet, sock, num, before);
    var s7 := Step(s6, WriteDone(r));
    LastAnswer(s7, r, sock, num, from, reply);
    SameWire(s7, Step(s7, ReplyArrives(from, reply)), sock);
    EightSteps(s, Call(r, packet), GotSocket(r, sock), Acquire(r), WritePart(r), WriteDone(r),
               ReplyArrives(from, reply));
  }

  lemma SameWire(s: State, t: State, sock: Sock)
    requires t.wire == s.wire
    ensures WireAt(t, sock) == WireAt(s, sock)
  {
  }

  lemma EightSteps(s: State, a: Event, b: Event, c: Event, d: Event, e: Event, f: Event)
    ensures Run(s, [a, b, c, d, d, d, e, f])
            == Step(Step(Step(Step(Step(Step(Step(Step(s, a), b), c), d), d), d), e), f)
  {
    hide Step;
    FourSteps(s, a, b, c, d);
    RunMore(s, [a, b, c, d], d);
    RunMore(s, [a, b, c, d, d], d);
    RunMore(s, [a, b, c, d, d, d], e);
    RunMore(s, [a, b, c, d, d, d, e], f);
    assert [a, b, c, d] + [d] == [a, b, c, d, d] && [a, b, c, d, d] + [d] == [a, b, c, d, d, d];
    assert [a, b, c, d, d, d] + [e] == [a, b, c, d, d, d, e];
    assert [a, b, c, d, d, d, e] + [f] == [a, b, c, d, d, d, e, f];
  }

  lemma FourSteps(s: State, a: Event, b: Event, c: Event, d: Event)
    ensures Run(s, [a, b, c, d]) == Step(Step(Step(Step(s, a), b), c), d)
  {
    hide Step;
    assert Run(s, []) == s;
    RunMore(s, [], a);
    RunMore(s, [a], b);
    RunMore(s, [a, b], c);
    RunMore(s, [a, b, c], d);
    assert [] + [a] == [a] && [a] + [b] == [a, b] && [a, b] + [c] == [a, b, c] && [a, b, c] + [d] == [a, b, c, d];
  }
}
