/** What the AFC demultiplexer keeps over every interleaving of its steps. */
module AfcDemuxTheorems {
  import opened Bytes
  import opened Wrappers
  import opened AfcDemuxSpec
  import P = AfcPackets

  // ----- one request in flight -----

  predicate InFlight(p: Phase) {
    p.Writing? || p.Waiting?
  }

  function NumOf(p: Phase): nat
    requires InFlight(p)
  {
    p.num
  }

  predicate Open(p: Phase) {
    p.Waiting? || (p.Writing? && p.promise.Unsettled?)
  }

  /** The lock holder is the one request in flight, and the only one that can be registered. */
  predicate Exclusive(s: State) {
    && (forall r :: r in s.phases && InFlight(s.phases[r]) ==> s.lock == Some(r))
    && (s.lock.Some? ==> s.lock.value in s.phases && InFlight(s.phases[s.lock.value]))
    && (forall num :: num in s.pending ==>
          && num < s.packetNum && s.pending[num] in s.phases
          && Open(s.phases[s.pending[num]]) && NumOf(s.phases[s.pending[num]]) == num)
  }

  lemma AtMostOnePending(s: State, m: nat, n: nat)
    requires Exclusive(s) && m in s.pending && n in s.pending
    ensures m == n && s.lock == Some(s.pending[m])
  {
    var p, q := s.phases[s.pending[m]], s.phases[s.pending[n]];
    assert InFlight(p) && InFlight(q);
  }

  lemma OnlyPending(s: State, num: nat)
    requires Exclusive(s) && num in s.pending
    ensures s.pending - {num} == map[]
  {
    forall m | m in s.pending
      ensures m == num
    {
      AtMostOnePending(s, m, num);
    }
  }

  /** What settling a promise does to the state: at most the request in flight changes. */
  lemma SettleForm(s: State, r: Req, o: Outcome)
    requires Exclusive(s)
    ensures SettleOne(s, r, o) ==
            if r in s.phases && s.phases[r].Waiting? then s.(phases := s.phases[r := Done(o)], lock := None)
            else if r in s.phases && Open(s.phases[r]) then
              s.(phases := s.phases[r := s.phases[r].(promise := Settled(o))])
            else s
  {
    if r in s.phases {
      if InFlight(s.phases[r]) {
        assert s.lock == Some(r);
      }
      if Settle(s.phases[r], o) == s.phases[r] {
        assert s.phases[r := s.phases[r]] == s.phases;
        HolderNotDone(s);
      }
    }
  }

  lemma HolderNotDone(s: State)
    requires Exclusive(s)
    ensures Released(s.lock, s.phases) == s.lock
  {
  }

  /** Settling any promise once nothing is registered. */
  lemma SettleExclusive(s: State, r: Req, o: Outcome)
    requires Exclusive(s) && s.pending == map[]
    ensures Exclusive(SettleOne(s, r, o))
  {
    hide SettleOne, Released, Settle;
    SettleForm(s, r, o);
    if r in s.phases && InFlight(s.phases[r]) {
      assert s.lock == Some(r);
    }
  }

  lemma UnregisterExclusive(s: State, t: State)
    requires Exclusive(s) && t == s.(pending := map[], timers := t.timers, replies := t.replies)
    ensures Exclusive(t)
  {
  }

  lemma FailExclusive(s: State, o: Outcome)
    requires Exclusive(s)
    ensures Exclusive(FailPending(s, o)) && FailPending(s, o).pending == map[]
  {
    var t := FailPending(s, o);
    forall r | r in t.phases && InFlight(t.phases[r])
      ensures t.lock == Some(r)
    {
      assert InFlight(s.phases[r]);
    }
    if s.lock.Some? {
      var r := s.lock.value;
      assert t.phases[r].Done? || InFlight(t.phases[r]);
    }
  }

  /** With stale timers a timeout can unregister another request; exclusion survives even that. */
  lemma TimeoutExclusive(s: State, r: Req)
    requires Exclusive(s)
    ensures Exclusive(OnTimeout(s, r))
  {
    hide Exclusive, SettleOne;
    if r in s.timers {
      if s.timers[r] in s.pending {
        OnlyPending(s, s.timers[r]);
        var t := s.(pending := map[], timers := s.timers - {r});
        UnregisterExclusive(s, t);
        SettleExclusive(t, r, TimedOut);
      } else {
        DisarmExclusive(s, s.timers - {r});
      }
    }
  }

  lemma DisarmExclusive(s: State, timers: map<Req, nat>)
    requires Exclusive(s)
    ensures Exclusive(s.(timers := timers))
  {
  }

  lemma CallExclusive(s: State, r: Req, packet: P.Packet)
    requires Exclusive(s)
    ensures Exclusive(OnCall(s, r, packet))
  {
  }

  lemma SocketExclusive(s: State, r: Req, sock: Sock)
    requires Exclusive(s)
    ensures Exclusive(OnSocket(s, r, sock))
  {
  }

  lemma RefusedExclusive(s: State, r: Req)
    requires Exclusive(s)
    ensures Exclusive(OnRefused(s, r))
  {
  }

  lemma ReaderFailExclusive(s: State, sock: Sock)
    requires Exclusive(s)
    ensures Exclusive(OnReaderFail(s, sock))
  {
    hide FailPending;
    FailExclusive(s, ReaderFailed);
  }

  lemma ReplyExclusive(s: State, sock: Sock, reply: P.Reply)
    requires Exclusive(s)
    ensures Exclusive(OnReply(s, sock, reply))
  {
    hide P.Interpret, OnReaderFail, SettleOne;
    if P.Interpret(reply).Err? {
      ReaderFailExclusive(s, sock);
    } else if reply.num in s.pending {
      OnlyPending(s, reply.num);
      var r := s.pending[reply.num];
      var t := s.(pending := map[], timers := s.timers - {r}, replies := s.replies + [Arrival(sock, reply, |s.sent|)]);
      UnregisterExclusive(s, t);
      SettleExclusive(t, r, Replied(sock, reply.num, P.Interpret(reply).value));
    }
  }

  lemma EndExclusive(s: State)
    requires Exclusive(s)
    ensures Exclusive(OnStop(s)) && Exclusive(OnReset(s))
  {
    hide FailPending;
    FailExclusive(s.(stopped := true), Stopped);
    FailExclusive(s, Replaced);
  }

  lemma StepExclusive(s: State, e: Event)
    requires Exclusive(s)
    ensures Exclusive(Step(s, e))
  {
    hide Exclusive, OnCall, OnSocket, OnRefused, OnAcquire, OnWritePart, OnWriteDone, OnWriteFail, OnTimeout, OnReply;
    hide OnReaderFail, OnStop, OnReset;
    match e
    case Call(r, packet) => CallExclusive(s, r, packet);
    case GotSocket(r, sock) => SocketExclusive(s, r, sock);
    case SocketRefused(r) => RefusedExclusive(s, r);
    case Acquire(r) => AcquireExclusive(s, r);
    case WritePart(r) => WritePartExclusive(s, r);
    case WriteDone(r) => WriteDoneExclusive(s, r);
    case WriteFail(r) => WriteFailExclusive(s, r);
    case Timeout(r) => TimeoutExclusive(s, r);
    case ReplyArrives(sock, reply) => ReplyExclusive(s, sock, reply);
    case ReaderFail(sock) => ReaderFailExclusive(s, sock);
    case Stop => EndExclusive(s);
    case Reset => EndExclusive(s);
  }

  lemma AcquireExclusive(s: State, r: Req)
    requires Exclusive(s)
    ensures Exclusive(OnAcquire(s, r))
  {
    if s.lock.None? {
      forall num | num in s.pending
        ensures false
      {
        assert InFlight(s.phases[s.pending[num]]);
      }
    }
  }

  lemma WritePartExclusive(s: State, r: Req)
    requires Exclusive(s)
    ensures Exclusive(OnWritePart(s, r))
  {
    hide P.Parts, WireAt;
  }

  /** Only the request in flight can be registered. */
  lemma PendingIsWriter(s: State, r: Req, num: nat)
    requires Exclusive(s) && r in s.phases && InFlight(s.phases[r]) && num in s.pending
    ensures s.pending[num] == r && num == NumOf(s.phases[r])
  {
    assert InFlight(s.phases[s.pending[num]]);
  }

  lemma WriteDoneExclusive(s: State, r: Req)
    requires Exclusive(s)
    ensures Exclusive(OnWriteDone(s, r))
  {
    var t := OnWriteDone(s, r);
    forall num | num in t.pending
      ensures num < t.packetNum && t.pending[num] in t.phases
      ensures Open(t.phases[t.pending[num]]) && NumOf(t.phases[t.pending[num]]) == num
    {
      if t != s {
        PendingIsWriter(s, r, num);
      }
    }
  }

  lemma WriteFailExclusive(s: State, r: Req)
    requires Exclusive(s)
    ensures Exclusive(OnWriteFail(s, r))
  {
    var t := OnWriteFail(s, r);
    if r in s.phases && s.phases[r].Writing? {
      forall num | num in s.pending
        ensures num == s.phases[r].num
      {
        PendingIsWriter(s, r, num);
      }
      assert s.lock == Some(r) && t.lock == None;
    }
  }

  /**
   * In every reachable state, resets included: at most one request is in flight, at most one packet
   * number is registered, and registered numbers are below the counter.
   */
  lemma {:induction false} AlwaysExclusive(es: seq<Event>)
    ensures Exclusive(Run(INITIAL, es))
  {
    hide Step;
    if es != [] {
      AlwaysExclusive(es[..|es| - 1]);
      StepExclusive(Run(INITIAL, es[..|es| - 1]), es[|es| - 1]);
    }
  }

  // ----- steps that only settle promises -----

  predicate IsWriting(s: State) {
    s.lock.Some? && s.lock.value in s.phases && s.phases[s.lock.value].Writing?
  }

  /** Wire, sends and packets are left alone, and so is the packet being written. */
  ghost predicate SameWire(s: State, t: State) {
    && t.wire == s.wire && t.sent == s.sent && t.packets == s.packets && t.failed == s.failed
    && (forall r :: r in s.phases <==> r in t.phases)
    && IsWriting(t) == IsWriting(s)
    && (IsWriting(s) ==>
          && t.lock == s.lock
          && var p, q := s.phases[s.lock.value], t.phases[s.lock.value];
             q.sock == p.sock && q.num == p.num && q.part == p.part)
    && ((t.epoch == s.epoch && t.packetNum == s.packetNum) || (t.epoch == |s.sent| && t.packetNum == 0))
  }

  /** The outcome carries what that reply says. */
  predicate Brings(a: Arrival, o: Outcome) {
    o.Replied? && a.sock == o.sock && a.reply.num == o.num && P.Interpret(a.reply) == Ok(o.meaning)
  }

  /** The reply behind a successful outcome arrived after the last packet was handed out. */
  ghost predicate Arrived(s: State, o: Outcome) {
    o.Replied? ==> exists j :: 0 <= j < |s.replies| && Brings(s.replies[j], o) && s.replies[j].after == |s.sent|
  }

  /** `p` becomes `q` by settling with `o`, a reply only when it is open under the reply's number. */
  predicate SettledBy(p: Phase, q: Phase, o: Outcome) {
    q == p || (q == Settle(p, o) && (o.Replied? ==> Open(p) && NumOf(p) == o.num))
    || (p.WantSocket? && (q.Queued? || (q.Done? && !q.o.Replied?)))
  }

  ghost predicate Quiet(s: State, t: State, o: Outcome) {
    && SameWire(s, t) && s.replies <= t.replies && Arrived(t, o)
    && forall r :: r in s.phases ==> r in t.phases && SettledBy(s.phases[r], t.phases[r], o)
  }

  lemma SocketQuiet(s: State, r: Req, sock: Sock)
    requires Exclusive(s)
    ensures Quiet(s, OnSocket(s, r, sock), Stopped)
  {
    hide Arrived;
    NoReplyArrived(OnSocket(s, r, sock), Stopped);
  }

  lemma RefusedQuiet(s: State, r: Req)
    requires Exclusive(s)
    ensures Quiet(s, OnRefused(s, r), NoSocket)
  {
    hide Arrived;
    NoReplyArrived(OnRefused(s, r), NoSocket);
  }

  lemma NoReplyArrived(s: State, o: Outcome)
    requires !o.Replied?
    ensures Arrived(s, o)
  {
  }

  lemma SettleQuiet(s: State, r: Req, o: Outcome)
    requires Exclusive(s) && Arrived(s, o) && (o.Replied? && r in s.phases
                                               ==> Open(s.phases[r]) && NumOf(s.phases[r]) == o.num)
    ensures Quiet(s, SettleOne(s, r, o), o)
  {
    hide Arrived, SameWire, Exclusive;
    SameArrivals(s, SettleOne(s, r, o), o);
    SettleSameWire(s, r, o);
  }

  lemma SettleSameWire(s: State, r: Req, o: Outcome)
    requires Exclusive(s)
    ensures SameWire(s, SettleOne(s, r, o))
  {
    hide SettleOne, Released, Settle, SameWire;
    SettleForm(s, r, o);
    SameWireAsBefore(s);
    if r in s.phases && InFlight(s.phases[r]) {
      assert s.lock == Some(r);
      if s.phases[r].Waiting? {
        SameWireEnding(s, r, o);
      } else if s.phases[r].promise.Unsettled? {
        SameWireSettling(s, r, o);
      }
    }
  }

  lemma SameWireAsBefore(s: State)
    ensures SameWire(s, s)
  {
  }

  lemma SameWireEnding(s: State, r: Req, o: Outcome)
    requires s.lock == Some(r) && r in s.phases && s.phases[r].Waiting?
    ensures SameWire(s, s.(phases := s.phases[r := Done(o)], lock := None))
  {
  }

  lemma SameWireSettling(s: State, r: Req, o: Outcome)
    requires s.lock == Some(r) && r in s.phases && s.phases[r].Writing?
    ensures SameWire(s, s.(phases := s.phases[r := s.phases[r].(promise := Settled(o))]))
  {
  }

  lemma SameArrivals(s: State, t: State, o: Outcome)
    requires t.replies == s.replies && t.sent == s.sent && Arrived(s, o)
    ensures Arrived(t, o)
  {
  }

  lemma FailQuiet(s: State, o: Outcome)
    requires Exclusive(s) && !o.Replied?
    ensures Quiet(s, FailPending(s, o), o)
  {
    var t := FailPending(s, o);
    if s.lock.Some? {
      assert InFlight(s.phases[s.lock.value]);
    }
  }

  /** Fields that no wire or promise depends on may change as well. */
  lemma QuietAside(s: State, t: State, u: State, o: Outcome)
    requires Quiet(s, t, o)
    requires u.phases == t.phases && u.lock == t.lock && u.wire == t.wire && u.sent == t.sent && u.packets == t.packets
    requires u.failed == t.failed && u.replies == t.replies
    requires (u.epoch == t.epoch && u.packetNum == t.packetNum) || (u.epoch == |t.sent| && u.packetNum == 0)
    ensures Quiet(s, u, o)
  {
    hide SettledBy;
  }

  lemma TimeoutQuiet(s: State, r: Req)
    requires Exclusive(s)
    ensures Quiet(s, OnTimeout(s, r), TimedOut)
  {
    hide SettledBy, SameWire, Exclusive;
    NothingQuiet(s, TimedOut);
    SettleQuiet(s, r, TimedOut);
    var t := OnTimeout(s, r);
    if r in s.timers && s.timers[r] in s.pending {
      QuietAside(s, SettleOne(s, r, TimedOut), t, TimedOut);
    } else {
      QuietAside(s, s, t, TimedOut);
    }
  }

  lemma NothingQuiet(s: State, o: Outcome)
    requires !o.Replied?
    ensures Quiet(s, s, o)
  {
  }

  lemma ReaderFailQuiet(s: State, sock: Sock)
    requires Exclusive(s)
    ensures Quiet(s, OnReaderFail(s, sock), ReaderFailed)
  {
    hide SettledBy, SameWire, Exclusive, FailPending;
    NothingQuiet(s, ReaderFailed);
    FailQuiet(s, ReaderFailed);
    var t := OnReaderFail(s, sock);
    if !s.stopped && s.readerSocket == Some(sock) {
      QuietAside(s, FailPending(s, ReaderFailed), t, ReaderFailed);
    } else {
      QuietAside(s, s, t, ReaderFailed);
    }
  }

  lemma EndQuiet(s: State)
    requires Exclusive(s)
    ensures Quiet(s, OnStop(s), Stopped) && Quiet(s, OnReset(s), Replaced)
  {
    hide SettledBy, SameWire, Exclusive;
    FailQuiet(s, Stopped);
    FailQuiet(s, Replaced);
    QuietAside(s, FailPending(s, Stopped), OnStop(s), Stopped);
    QuietAside(s, FailPending(s, Replaced), OnReset(s), Replaced);
  }

  /** The outcome a reply brings. */
  function ReplyOutcome(sock: Sock, reply: P.Reply): Outcome {
    match P.Interpret(reply)
    case Err(_) => ReaderFailed
    case Ok(m) => Replied(sock, reply.num, m)
  }

  lemma ReplyQuiet(s: State, sock: Sock, reply: P.Reply)
    requires Exclusive(s)
    ensures Quiet(s, OnReply(s, sock, reply), ReplyOutcome(sock, reply))
  {
    hide SettledBy, SameWire, OnReaderFail, P.Interpret, SettleOne;
    if P.Interpret(reply).Err? {
      ReaderFailQuiet(s, sock);
    } else {
      var o := ReplyOutcome(sock, reply);
      var s1 := s.(replies := s.replies + [Arrival(sock, reply, |s.sent|)]);
      assert s1.replies[|s.replies|] == Arrival(sock, reply, |s.sent|);
      if reply.num in s.pending {
        var r := s.pending[reply.num];
        SettleQuiet(s1, r, o);
        SettleSame(s1, r, o, s1.pending - {reply.num}, s1.timers - {r});
        QuietAside(s1, SettleOne(s1, r, o), OnReply(s, sock, reply), o);
        QuietFrom(s, s1, OnReply(s, sock, reply), o);
      } else {
        RecordQuiet(s, s1, o);
      }
    }
  }

  lemma SettleSame(s: State, r: Req, o: Outcome, pending: map<nat, Req>, timers: map<Req, nat>)
    ensures SettleOne(s.(pending := pending, timers := timers), r, o)
            == SettleOne(s, r, o).(pending := pending, timers := timers)
  {
    hide Settle, Released;
  }

  /** Recording a reply changes nothing else. */
  lemma RecordQuiet(s: State, t: State, o: Outcome)
    requires t == s.(replies := t.replies) && s.replies <= t.replies && Arrived(t, o)
    ensures Quiet(s, t, o)
  {
    hide Arrived;
  }

  lemma QuietFrom(s: State, s1: State, t: State, o: Outcome)
    requires s1 == s.(replies := s1.replies) && s.replies <= s1.replies && Quiet(s1, t, o)
    ensures Quiet(s, t, o)
  {
    hide Arrived, SettledBy;
  }

  /** The steps that are neither calls, acquisitions nor writes settle promises with one outcome. */
  lemma QuietOutcome(s: State, e: Event) returns (o: Outcome)
    requires Exclusive(s) && !e.Call? && !e.Acquire? && !e.WritePart? && !e.WriteDone? && !e.WriteFail?
    ensures Quiet(s, Step(s, e), o)
  {
    hide Exclusive, Quiet, OnSocket, OnRefused, OnTimeout, OnReply, OnReaderFail, OnStop, OnReset;
    match e
    case GotSocket(r, sock) => SocketQuiet(s, r, sock); o := Stopped;
    case SocketRefused(r) => RefusedQuiet(s, r); o := NoSocket;
    case Timeout(r) => TimeoutQuiet(s, r); o := TimedOut;
    case ReplyArrives(sock, reply) => ReplyQuiet(s, sock, reply); o := ReplyOutcome(sock, reply);
    case ReaderFail(sock) => ReaderFailQuiet(s, sock); o := ReaderFailed;
    case Stop => EndQuiet(s); o := Stopped;
    case Reset => EndQuiet(s); o := Replaced;
  }

  // ----- one outcome each -----

  /** Nothing a later step does changes an outcome. */
  lemma StepKeepsOutcome(s: State, e: Event, r: Req)
    requires Exclusive(s) && r in s.phases && s.phases[r].Done?
    ensures r in Step(s, e).phases && Step(s, e).phases[r] == s.phases[r]
  {
    hide Exclusive, Quiet, OnCall, OnAcquire, OnWritePart, OnWriteDone, OnWriteFail;
    hide OnSocket, OnRefused, OnTimeout, OnReply, OnReaderFail, OnStop, OnReset;
    if e.Call? || e.Acquire? || e.WritePart? || e.WriteDone? || e.WriteFail? {
      SendKeepsOutcome(s, e, r);
    } else {
      var o := QuietOutcome(s, e);
      QuietKeepsOutcome(s, Step(s, e), o, r);
    }
  }

  lemma SendKeepsOutcome(s: State, e: Event, r: Req)
    requires r in s.phases && s.phases[r].Done?
    requires e.Call? || e.Acquire? || e.WritePart? || e.WriteDone? || e.WriteFail?
    ensures r in Step(s, e).phases && Step(s, e).phases[r] == s.phases[r]
  {
    hide P.Parts, WireAt;
  }

  lemma QuietKeepsOutcome(s: State, t: State, o: Outcome, r: Req)
    requires Quiet(s, t, o) && r in s.phases && s.phases[r].Done?
    ensures r in t.phases && t.phases[r] == s.phases[r]
  {
    hide SameWire, Arrived;
  }

  /** Each request has at most one outcome: once it has one, it keeps it. */
  lemma {:induction false} OutcomesAreFinal(s: State, es: seq<Event>, r: Req)
    requires Exclusive(s) && r in s.phases && s.phases[r].Done?
    ensures Exclusive(Run(s, es)) && r in Run(s, es).phases && Run(s, es).phases[r] == s.phases[r]
  {
    hide Step, Exclusive;
    if es != [] {
      OutcomesAreFinal(s, es[..|es| - 1], r);
      StepExclusive(Run(s, es[..|es| - 1]), es[|es| - 1]);
      StepKeepsOutcome(Run(s, es[..|es| - 1]), es[|es| - 1], r);
    }
  }

  // ----- a successful outcome is a reply with the request's own number -----

  /** The last packet handed out is the one of request `r`. */
  predicate LastSent(s: State, r: Req, num: nat) {
    |s.sent| > 0 && s.sent[|s.sent| - 1].req == r && s.sent[|s.sent| - 1].num == num
  }

  /**
   * Packet `i` is the one of request `r`, and reply `j` carries its number and the outcome; it arrived
   * after packet `i` was handed out and before the next one was.
   */
  predicate Answers(s: State, r: Req, o: Outcome, i: nat, j: nat) {
    && i < |s.sent| && j < |s.replies| && Brings(s.replies[j], o)
    && s.sent[i].req == r && s.sent[i].num == o.num && s.replies[j].after == i + 1
  }

  ghost predicate Backed(s: State, r: Req, o: Outcome) {
    o.Replied? ==> exists i: nat, j: nat :: Answers(s, r, o, i, j)
  }

  ghost predicate PhaseMatched(s: State, r: Req, p: Phase) {
    && (InFlight(p) ==> LastSent(s, r, NumOf(p)))
    && (p.Done? ==> Backed(s, r, p.o))
    && (p.Writing? && p.promise.Settled? ==> Backed(s, r, p.promise.o))
  }

  ghost predicate Matched(s: State) {
    forall r :: r in s.phases ==> PhaseMatched(s, r, s.phases[r])
  }

  /** `sent` and `replies` only grow, and nothing is sent while a request is in flight. */
  lemma PhaseGrows(s: State, t: State, r: Req, p: Phase)
    requires s.sent <= t.sent && s.replies <= t.replies && PhaseMatched(s, r, p) && (InFlight(p) ==> t.sent == s.sent)
    ensures PhaseMatched(t, r, p)
  {
    hide Backed;
    if p.Done? {
      BackedGrows(s, t, r, p.o);
    }
    if p.Writing? && p.promise.Settled? {
      BackedGrows(s, t, r, p.promise.o);
    }
  }

  lemma BackedGrows(s: State, t: State, r: Req, o: Outcome)
    requires s.sent <= t.sent && s.replies <= t.replies && Backed(s, r, o)
    ensures Backed(t, r, o)
  {
    hide Brings;
    if o.Replied? {
      var i: nat, j: nat :| Answers(s, r, o, i, j);
      assert t.sent[i] == s.sent[i] && t.replies[j] == s.replies[j];
      assert Answers(t, r, o, i, j);
    }
  }

  lemma QuietMatched(s: State, t: State, o: Outcome)
    requires Matched(s) && Quiet(s, t, o)
    ensures Matched(t)
  {
    hide Arrived, Backed, IsWriting, LastSent;
    forall r | r in t.phases
      ensures PhaseMatched(t, r, t.phases[r])
    {
      assert PhaseMatched(s, r, s.phases[r]) && SettledBy(s.phases[r], t.phases[r], o);
      PhaseGrows(s, t, r, s.phases[r]);
      if t.phases[r].Done? && !t.phases[r].o.Replied? {
        NoReplyBacked(t, r, t.phases[r].o);
      }
      if o.Replied? && Open(s.phases[r]) && NumOf(s.phases[r]) == o.num {
        ArrivedBacked(t, r, o);
      } else if !o.Replied? {
        NoReplyBacked(t, r, o);
      }
    }
  }

  lemma NoReplyBacked(s: State, r: Req, o: Outcome)
    requires !o.Replied?
    ensures Backed(s, r, o)
  {
  }

  /** A reply that arrives while the last packet is in flight is the reply to that packet. */
  lemma ArrivedBacked(s: State, r: Req, o: Outcome)
    requires o.Replied? && Arrived(s, o) && LastSent(s, r, o.num)
    ensures Backed(s, r, o)
  {
    hide Brings;
    var j: nat :| j < |s.replies| && Brings(s.replies[j], o) && s.replies[j].after == |s.sent|;
    assert Answers(s, r, o, |s.sent| - 1, j);
  }

  /** A step that changes the phase of one request to a matched one. */
  lemma OneMatched(s: State, t: State, r: Req)
    requires Matched(s) && s.sent <= t.sent && s.replies <= t.replies
    requires r in t.phases ==> PhaseMatched(t, r, t.phases[r])
    requires forall q :: q in t.phases && q != r ==> q in s.phases && t.phases[q] == s.phases[q]
    requires t.sent == s.sent || forall q :: q in s.phases ==> !InFlight(s.phases[q])
    ensures Matched(t)
  {
    hide PhaseMatched;
    forall q | q in t.phases && q != r
      ensures PhaseMatched(t, q, t.phases[q])
    {
      PhaseGrows(s, t, q, s.phases[q]);
    }
  }

  lemma AcquireMatched(s: State, r: Req)
    requires Exclusive(s) && Matched(s)
    ensures Matched(OnAcquire(s, r))
  {
    hide Backed;
    var t := OnAcquire(s, r);
    if t != s {
      assert t.sent[|s.sent|] == Sent(r, s.phases[r].sock, s.packetNum);
      OneMatched(s, t, r);
    }
  }

  lemma CallMatched(s: State, r: Req, packet: P.Packet)
    requires Matched(s)
    ensures Matched(OnCall(s, r, packet))
  {
    hide LastSent;
    OneMatched(s, OnCall(s, r, packet), r);
  }

  lemma WritePartMatched(s: State, r: Req)
    requires Matched(s)
    ensures Matched(OnWritePart(s, r))
  {
    hide LastSent, Backed, P.Parts, WireAt;
    if r in s.phases {
      assert PhaseMatched(s, r, s.phases[r]);
      PhaseGrows(s, OnWritePart(s, r), r, s.phases[r]);
      OneMatched(s, OnWritePart(s, r), r);
    }
  }

  lemma WriteDoneMatched(s: State, r: Req)
    requires Matched(s)
    ensures Matched(OnWriteDone(s, r))
  {
    hide LastSent, Backed;
    if r in s.phases {
      assert PhaseMatched(s, r, s.phases[r]);
      PhaseGrows(s, OnWriteDone(s, r), r, s.phases[r]);
      OneMatched(s, OnWriteDone(s, r), r);
    }
  }

  lemma WriteFailMatched(s: State, r: Req)
    requires Matched(s)
    ensures Matched(OnWriteFail(s, r))
  {
    hide LastSent, Backed;
    if r in s.phases {
      NoReplyBacked(OnWriteFail(s, r), r, WriteFailed);
      PhaseGrows(s, OnWriteFail(s, r), r, s.phases[r]);
      OneMatched(s, OnWriteFail(s, r), r);
    }
  }

  lemma StepMatched(s: State, e: Event)
    requires Exclusive(s) && Matched(s)
    ensures Matched(Step(s, e))
  {
    hide Exclusive, Matched, Quiet, OnCall, OnSocket, OnRefused, OnAcquire, OnWritePart, OnWriteDone, OnWriteFail;
    hide OnTimeout, OnReply, OnReaderFail, OnStop, OnReset;
    match e
    case Call(r, packet) => CallMatched(s, r, packet);
    case Acquire(r) => AcquireMatched(s, r);
    case WritePart(r) => WritePartMatched(s, r);
    case WriteDone(r) => WriteDoneMatched(s, r);
    case WriteFail(r) => WriteFailMatched(s, r);
    case _ =>
      var o := QuietOutcome(s, e);
      QuietMatched(s, Step(s, e), o);
  }

  /**
   * A request is only ever answered by a reply with its own packet number that arrived while its packet
   * was the last one handed out.
   */
  lemma {:induction false} AlwaysMatched(es: seq<Event>)
    ensures Matched(Run(INITIAL, es))
  {
    hide Step, Exclusive, PhaseMatched;
    if es != [] {
      AlwaysMatched(es[..|es| - 1]);
      AlwaysExclusive(es[..|es| - 1]);
      StepMatched(Run(INITIAL, es[..|es| - 1]), es[|es| - 1]);
    }
  }

  predicate IsAnswered(s: State, r: Req) {
    r in s.phases && s.phases[r].Done? && s.phases[r].o.Replied?
  }

  /** The reply that answered `r`. */
  ghost function AnswerTo(s: State, r: Req): (j: nat)
    requires Matched(s) && IsAnswered(s, r)
    ensures exists i: nat :: Answers(s, r, s.phases[r].o, i, j)
  {
    assert PhaseMatched(s, r, s.phases[r]);
    var i: nat, j: nat :| Answers(s, r, s.phases[r].o, i, j);
    j
  }

  /** No reply answers two requests: the requests answered so far have different replies. */
  lemma RepliesUsedOnce(es: seq<Event>) returns (answer: map<Req, nat>)
    ensures var s := Run(INITIAL, es);
            && (forall r :: r in answer <==> IsAnswered(s, r))
            && (forall r :: r in answer ==> answer[r] < |s.replies| && Brings(s.replies[answer[r]], s.phases[r].o))
            && (forall q, r :: q in answer && r in answer && q != r ==> answer[q] != answer[r])
  {
    hide Run, Step, Matched, Brings;
    var s := Run(INITIAL, es);
    AlwaysMatched(es);
    answer := map r | r in s.phases && IsAnswered(s, r) :: AnswerTo(s, r);
  }

  // ----- packets reach the wire whole and in order -----

  /** Whole packets of a list of sends on socket `k`. */
  function Whole(packets: map<Req, P.Packet>, sent: seq<Sent>, k: Sock): Bytes {
    if sent == [] then []
    else
      var last := sent[|sent| - 1];
      Whole(packets, sent[..|sent| - 1], k)
      + (if last.sock == k && last.req in packets then Flatten(P.Parts(packets[last.req], last.num)) else [])
  }

  /** The part of the current packet already written to socket `k`. */
  function Partial(s: State, k: Sock): Bytes
    requires s.lock.Some? && s.lock.value in s.phases && s.phases[s.lock.value].Writing?
    requires s.phases[s.lock.value].part <= 3
  {
    var r := s.lock.value;
    var p := s.phases[r];
    if p.sock == k && r in s.packets then Flatten(P.Parts(s.packets[r], p.num)[..p.part]) else []
  }

  /**
   * A socket on which no write failed carries whole packets in the order of their numbers, the one
   * being written last and possibly cut short; within an epoch the numbers count up from 0.
   */
  ghost predicate Ordered(s: State) {
    && s.epoch <= |s.sent| && s.packetNum == |s.sent| - s.epoch
    && (forall i :: s.epoch <= i < |s.sent| ==> s.sent[i].num == i - s.epoch)
    && (forall i :: 0 <= i < |s.sent| ==> s.sent[i].req in s.packets)
    && (forall r :: r in s.phases <==> r in s.packets)
    && (IsWriting(s) ==>
          && |s.sent| > 0 && s.phases[s.lock.value].part <= 3
          && s.sent[|s.sent| - 1] == Sent(s.lock.value, s.phases[s.lock.value].sock, s.phases[s.lock.value].num))
    && (forall k: Sock :: k !in s.failed ==>
          WireAt(s, k) == if IsWriting(s) then Whole(s.packets, s.sent[..|s.sent| - 1], k) + Partial(s, k)
                          else Whole(s.packets, s.sent, k))
  }

  lemma {:induction false} WholeIgnoresNew(packets: map<Req, P.Packet>, sent: seq<Sent>, k: Sock, r: Req,
                                           packet: P.Packet)
    requires r !in packets && forall i :: 0 <= i < |sent| ==> sent[i].req in packets
    ensures Whole(packets[r := packet], sent, k) == Whole(packets, sent, k)
  {
    hide P.Parts;
    if sent != [] {
      WholeIgnoresNew(packets, sent[..|sent| - 1], k, r, packet);
    }
  }

  lemma SameWireOrdered(s: State, t: State)
    requires Ordered(s) && SameWire(s, t)
    ensures Ordered(t)
  {
    hide Whole, P.Parts;
    forall k: Sock | k !in t.failed
      ensures WireAt(t, k) == if IsWriting(t) then Whole(t.packets, t.sent[..|t.sent| - 1], k) + Partial(t, k)
                              else Whole(t.packets, t.sent, k)
    {
      assert WireAt(t, k) == WireAt(s, k);
      if IsWriting(s) {
        assert Partial(t, k) == Partial(s, k);
      }
    }
  }

  lemma CallOrdered(s: State, r: Req, packet: P.Packet)
    requires Exclusive(s) && Ordered(s)
    ensures Ordered(OnCall(s, r, packet))
  {
    hide Whole, P.Parts;
    if r !in s.phases {
      var t := OnCall(s, r, packet);
      forall k: Sock | k !in t.failed
        ensures WireAt(t, k) == if IsWriting(t) then Whole(t.packets, t.sent[..|t.sent| - 1], k) + Partial(t, k)
                                else Whole(t.packets, t.sent, k)
      {
        WholeIgnoresNew(s.packets, s.sent, k, r, packet);
        if IsWriting(s) {
          WholeIgnoresNew(s.packets, s.sent[..|s.sent| - 1], k, r, packet);
          assert Partial(t, k) == Partial(s, k);
        }
      }
    }
  }

  lemma AcquireOrdered(s: State, r: Req)
    requires Exclusive(s) && Ordered(s)
    ensures Ordered(OnAcquire(s, r))
  {
    hide Whole, P.Parts;
    var t := OnAcquire(s, r);
    if t != s {
      assert t.sent[..|t.sent| - 1] == s.sent;
      forall k: Sock | k !in t.failed
        ensures WireAt(t, k) == Whole(t.packets, t.sent[..|t.sent| - 1], k) + Partial(t, k)
      {
        assert Partial(t, k) == [] by {
          NoPartsYet(t, k);
        }
        assert WireAt(t, k) + [] == WireAt(t, k);
      }
    }
  }

  lemma NoPartsYet(t: State, k: Sock)
    requires IsWriting(t) && t.phases[t.lock.value].part == 0
    ensures Partial(t, k) == []
  {
    hide P.Parts;
    if t.lock.value in t.packets {
      assert P.Parts(t.packets[t.lock.value], t.phases[t.lock.value].num)[..0] == [];
    }
  }

  lemma WritePartOrdered(s: State, r: Req)
    requires Exclusive(s) && Ordered(s)
    ensures Ordered(OnWritePart(s, r))
  {
    hide Whole, P.Parts, Flatten;
    var t := OnWritePart(s, r);
    if r in s.phases && r in s.packets && s.phases[r].Writing? && s.phases[r].part < 3 {
      assert s.lock == Some(r);
      var p := s.phases[r];
      var parts := P.Parts(s.packets[r], p.num);
      OneMorePart(parts, p.part);
      forall k: Sock | k !in t.failed
        ensures WireAt(t, k) == Whole(t.packets, t.sent[..|t.sent| - 1], k) + Partial(t, k)
      {
        var before := Whole(s.packets, s.sent[..|s.sent| - 1], k);
        assert WireAt(s, k) == before + Partial(s, k);
        if k == p.sock {
          Regrouped(before, Flatten(parts[..p.part]), parts[p.part]);
        }
      }
    }
  }

  lemma Regrouped(a: Bytes, b: Bytes, c: Bytes)
    ensures a + b + c == a + (b + c)
  {
  }

  lemma OneMorePart(parts: seq<Bytes>, i: nat)
    requires i < |parts|
    ensures Flatten(parts[..i + 1]) == Flatten(parts[..i]) + parts[i]
  {
    assert parts[..i + 1][..i] == parts[..i];
  }

  /** The packet is whole, or its socket is given up. */
  lemma WriteEndsOrdered(s: State, e: Event, r: Req)
    requires Exclusive(s) && Ordered(s) && (e == WriteDone(r) || e == WriteFail(r))
    ensures Ordered(Step(s, e))
  {
    hide Whole, P.Parts;
    var t := Step(s, e);
    if t != s {
      assert s.lock == Some(r) && IsWriting(s) && !IsWriting(t);
      var p := s.phases[r];
      var last := s.sent[|s.sent| - 1];
      forall k: Sock | k !in t.failed
        ensures WireAt(t, k) == Whole(t.packets, t.sent, k)
      {
        assert WireAt(t, k) == WireAt(s, k);
        WholeStep(s.packets, s.sent, k);
        if e.WriteDone? && p.sock == k {
          assert P.Parts(s.packets[r], p.num)[..3] == P.Parts(s.packets[r], p.num);
        }
      }
    }
  }

  lemma WholeStep(packets: map<Req, P.Packet>, sent: seq<Sent>, k: Sock)
    requires sent != []
    ensures var last := sent[|sent| - 1];
            Whole(packets, sent, k) == Whole(packets, sent[..|sent| - 1], k)
            + (if last.sock == k && last.req in packets then Flatten(P.Parts(packets[last.req], last.num)) else [])
  {
  }

  lemma StepOrdered(s: State, e: Event)
    requires Exclusive(s) && Ordered(s)
    ensures Ordered(Step(s, e))
  {
    hide Ordered, SameWire, Exclusive, OnCall, OnSocket, OnRefused, OnAcquire, OnWritePart, OnWriteDone, OnWriteFail;
    hide OnTimeout, OnReply, OnReaderFail, OnStop, OnReset;
    match e
    case Call(r, packet) => CallOrdered(s, r, packet);
    case Acquire(r) => AcquireOrdered(s, r);
    case WritePart(r) => WritePartOrdered(s, r);
    case WriteDone(r) => WriteEndsOrdered(s, e, r);
    case WriteFail(r) => WriteEndsOrdered(s, e, r);
    case _ =>
      var o := QuietOutcome(s, e);
      SameWireOrdered(s, Step(s, e));
  }

  lemma {:induction false} AlwaysOrdered(es: seq<Event>)
    ensures Ordered(Run(INITIAL, es))
  {
    hide Step, Exclusive, Ordered;
    if es == [] {
      StartsOrdered();
    } else {
      AlwaysOrdered(es[..|es| - 1]);
      AlwaysExclusive(es[..|es| - 1]);
      StepOrdered(Run(INITIAL, es[..|es| - 1]), es[|es| - 1]);
    }
  }

  lemma StartsOrdered()
    ensures Ordered(INITIAL)
  {
  }

  // ----- no request is lost, within an epoch -----

  /**
   * Every open request is registered under its number and has its timer armed, and no timer names a
   * number that could be handed out again.
   */
  predicate Live(s: State) {
    && (forall r :: r in s.phases && Open(s.phases[r]) ==>
          var num := NumOf(s.phases[r]);
          num in s.pending && s.pending[num] == r && r in s.timers && s.timers[r] == num)
    && (forall r :: r in s.timers ==>
          s.timers[r] < s.packetNum && (s.timers[r] in s.pending ==> s.pending[s.timers[r]] == r))
  }

  lemma CallLive(s: State, r: Req, packet: P.Packet)
    requires Live(s)
    ensures Live(OnCall(s, r, packet))
  {
  }

  lemma SocketLive(s: State, r: Req, sock: Sock)
    requires Live(s)
    ensures Live(OnSocket(s, r, sock))
  {
  }

  lemma RefusedLive(s: State, r: Req)
    requires Live(s)
    ensures Live(OnRefused(s, r))
  {
  }

  lemma AcquireLive(s: State, r: Req)
    requires Exclusive(s) && Live(s)
    ensures Live(OnAcquire(s, r))
  {
    if s.lock.None? {
      assert forall q :: q in s.phases ==> !Open(s.phases[q]);
    }
  }

  lemma WriteLive(s: State, r: Req)
    requires Exclusive(s) && Live(s)
    ensures Live(OnWritePart(s, r)) && Live(OnWriteDone(s, r))
  {
    hide P.Parts, WireAt;
  }

  /** Settling a registered promise, its entry and timer removed. */
  lemma SettleLive(s: State, num: nat, o: Outcome)
    requires Exclusive(s) && Live(s) && num in s.pending
    ensures var r := s.pending[num];
            Live(SettleOne(s.(pending := s.pending - {num}, timers := s.timers - {r}), r, o))
  {
    var r := s.pending[num];
    assert InFlight(s.phases[r]) && s.lock == Some(r);
    var t := SettleOne(s.(pending := s.pending - {num}, timers := s.timers - {r}), r, o);
    forall q | q in t.phases
      ensures !Open(t.phases[q])
    {
      assert q != r ==> !InFlight(s.phases[q]);
    }
  }

  lemma TimeoutLive(s: State, r: Req)
    requires Exclusive(s) && Live(s)
    ensures Live(OnTimeout(s, r))
  {
    hide SettleOne, Exclusive;
    if r in s.timers && s.timers[r] in s.pending {
      SettleLive(s, s.timers[r], TimedOut);
    }
  }

  lemma FailLive(s: State, o: Outcome)
    requires Exclusive(s) && Live(s)
    ensures Live(FailPending(s, o))
  {
    var t := FailPending(s, o);
    forall r | r in t.phases
      ensures !Open(t.phases[r])
    {
      if Open(s.phases[r]) {
        assert s.pending[NumOf(s.phases[r])] == r;
      }
    }
  }

  lemma EndLive(s: State, sock: Sock)
    requires Exclusive(s) && Live(s)
    ensures Live(OnStop(s)) && Live(OnReaderFail(s, sock))
  {
    hide FailPending;
    FailLive(s.(stopped := true), Stopped);
    FailLive(s, ReaderFailed);
  }

  lemma StepLive(s: State, e: Event)
    requires Exclusive(s) && Live(s) && !e.Reset?
    ensures Live(Step(s, e))
  {
    hide Exclusive, Live, OnCall, OnSocket, OnRefused, OnAcquire, OnWritePart, OnWriteDone, OnWriteFail;
    hide OnTimeout, OnReply, OnReaderFail, OnStop;
    match e
    case Call(r, packet) => CallLive(s, r, packet);
    case GotSocket(r, sock) => SocketLive(s, r, sock);
    case SocketRefused(r) => RefusedLive(s, r);
    case Acquire(r) => AcquireLive(s, r);
    case WritePart(r) => WriteLive(s, r);
    case WriteDone(r) => WriteLive(s, r);
    case WriteFail(r) => WriteFailLive(s, r);
    case Timeout(r) => TimeoutLive(s, r);
    case ReplyArrives(sock, reply) => ReplyLive(s, sock, reply);
    case ReaderFail(sock) => EndLive(s, sock);
    case Stop => EndLive(s, 0);
  }

  lemma WriteFailLive(s: State, r: Req)
    requires Exclusive(s) && Live(s)
    ensures Live(OnWriteFail(s, r))
  {
    if r in s.phases && s.phases[r].Writing? {
      assert s.lock == Some(r);
    }
  }

  lemma ReplyLive(s: State, sock: Sock, reply: P.Reply)
    requires Exclusive(s) && Live(s)
    ensures Live(OnReply(s, sock, reply))
  {
    hide P.Interpret, OnReaderFail, SettleOne, Exclusive, Live;
    EndLive(s, sock);
    var t := s.(replies := s.replies + [Arrival(sock, reply, |s.sent|)]);
    RecordLive(s, t);
    if P.Interpret(reply).Ok? && reply.num in s.pending {
      SettleLive(t, reply.num, ReplyOutcome(sock, reply));
    }
  }

  lemma RecordLive(s: State, t: State)
    requires Exclusive(s) && Live(s) && t == s.(replies := t.replies)
    ensures Exclusive(t) && Live(t)
  {
  }

  /** A reset keeps that exactly when no timer is armed except those it clears. */
  lemma ResetLiveExactlyWhen(s: State)
    requires Exclusive(s) && Live(s)
    ensures Live(OnReset(s)) <==> s.timers.Keys <= s.pending.Values
  {
    var t := OnReset(s);
    if !(s.timers.Keys <= s.pending.Values) {
      var r :| r in s.timers && r !in s.pending.Values;
      assert r in t.timers;
    }
  }

  /** Between two resets no request is lost. */
  lemma {:induction false} NoRequestLost(s: State, es: seq<Event>)
    requires Exclusive(s) && Live(s) && forall e :: e in es ==> !e.Reset?
    ensures Exclusive(Run(s, es)) && Live(Run(s, es))
  {
    hide Step, Live, Exclusive;
    if es != [] {
      NoRequestLost(s, es[..|es| - 1]);
      StepExclusive(Run(s, es[..|es| - 1]), es[|es| - 1]);
      StepLive(Run(s, es[..|es| - 1]), es[|es| - 1]);
    }
  }

  lemma StartsLive()
    ensures Exclusive(INITIAL) && Live(INITIAL)
  {
  }

  /** So from the start to the first reset every open request is registered, with its timer armed. */
  lemma NoRequestLostAtFirst(es: seq<Event>)
    requires forall e :: e in es ==> !e.Reset?
    ensures Live(Run(INITIAL, es))
  {
    hide Live, Exclusive, Run;
    StartsLive();
    NoRequestLost(INITIAL, es);
  }

  /** In such a state its own timer always ends a waiting request and frees the lock. */
  lemma TimeoutEnds(s: State, r: Req)
    requires Exclusive(s) && Live(s) && r in s.phases && s.phases[r].Waiting?
    ensures Step(s, Timeout(r)).phases[r] == Done(TimedOut) && Step(s, Timeout(r)).lock == None
  {
  }

  // ----- a request can be lost across a reset, and then everything is stuck -----

  /** A waiting request that no map entry names any more. */
  predicate Lost(s: State, r: Req) {
    s.lock == Some(r) && r in s.phases && s.phases[r].Waiting? && r !in s.pending.Values && s.pending == map[]
  }

  /** Nothing finishes a lost request and no request is ever sent again. */
  lemma LostStays(s: State, e: Event, r: Req)
    requires Exclusive(s) && Lost(s, r)
    ensures Lost(Step(s, e), r) && Step(s, e).sent == s.sent
  {
    hide Exclusive, Lost, OnCall, OnSocket, OnRefused, OnAcquire, OnWritePart, OnWriteDone, OnWriteFail;
    hide OnTimeout, OnReply, OnReaderFail, OnStop, OnReset;
    match e
    case Timeout(q) => LostTimeout(s, q, r);
    case ReplyArrives(sock, reply) => LostReply(s, r, sock, reply);
    case ReaderFail(sock) => LostAtEnd(s, r, sock);
    case Stop => LostAtEnd(s, r, 0);
    case Reset => LostAtEnd(s, r, 0);
    case _ => LostSend(s, e, r);
  }

  /** The lock is taken, so nothing can be sent or written. */
  lemma LostSend(s: State, e: Event, r: Req)
    requires Exclusive(s) && Lost(s, r)
    requires e.Call? || e.GotSocket? || e.SocketRefused? || e.Acquire? || e.WritePart? || e.WriteDone? || e.WriteFail?
    ensures Lost(Step(s, e), r) && Step(s, e).sent == s.sent
  {
    hide P.Parts, WireAt;
    if e.WritePart? || e.WriteDone? || e.WriteFail? {
      assert forall q :: q in s.phases ==> !s.phases[q].Writing?;
      assert Step(s, e) == s;
    }
  }

  lemma LostTimeout(s: State, q: Req, r: Req)
    requires Lost(s, r)
    ensures Lost(OnTimeout(s, q), r) && OnTimeout(s, q).sent == s.sent
  {
  }

  lemma LostReply(s: State, r: Req, sock: Sock, reply: P.Reply)
    requires Exclusive(s) && Lost(s, r)
    ensures Lost(OnReply(s, sock, reply), r) && OnReply(s, sock, reply).sent == s.sent
  {
    hide P.Interpret, OnReaderFail;
    LostAtEnd(s, r, sock);
  }

  lemma LostAtEnd(s: State, r: Req, sock: Sock)
    requires Exclusive(s) && Lost(s, r)
    ensures Lost(OnReaderFail(s, sock), r) && OnReaderFail(s, sock).sent == s.sent
    ensures Lost(OnStop(s), r) && OnStop(s).sent == s.sent && Lost(OnReset(s), r) && OnReset(s).sent == s.sent
  {
    hide FailPending;
    LostFails(s, r, ReaderFailed);
    LostFails(s.(stopped := true), r, Stopped);
    LostFails(s, r, Replaced);
  }

  lemma LostFails(s: State, r: Req, o: Outcome)
    requires Lost(s, r)
    ensures Lost(FailPending(s, o), r) && FailPending(s, o).sent == s.sent
    ensures var t := FailPending(s, o); t.epoch == s.epoch && t.packetNum == s.packetNum
  {
    assert s.pending.Values == {};
  }

  lemma {:induction false} LostForever(s: State, es: seq<Event>, r: Req)
    requires Exclusive(s) && Lost(s, r)
    ensures Exclusive(Run(s, es)) && Lost(Run(s, es), r) && Run(s, es).sent == s.sent
  {
    hide Step, Exclusive;
    if es != [] {
      LostForever(s, es[..|es| - 1], r);
      StepExclusive(Run(s, es[..|es| - 1]), es[|es| - 1]);
      LostStays(Run(s, es[..|es| - 1]), es[|es| - 1], r);
    }
  }

  lemma RunMore(s: State, es: seq<Event>, e: Event)
    ensures Run(s, es + [e]) == Step(Run(s, es), e)
  {
    hide Step;
    assert (es + [e])[..|es|] == es;
  }

  /** A request written completely to the second socket and waiting, where nothing else is in flight. */
  function Exchange(r: Req, packet: P.Packet): seq<Event> {
    [Call(r, packet), GotSocket(r, 1), Acquire(r), WritePart(r), WritePart(r), WritePart(r), WriteDone(r)]
  }

  /**
   * How it happens: a write fails and leaves its timer armed, the demultiplexer is reset for another
   * socket and hands out the same number again, and the old timer unregisters the new request.
   */
  lemma StaleTimerLosesRequest(packet: P.Packet) returns (es: seq<Event>)
    ensures Lost(Run(INITIAL, es), 1) && Exclusive(Run(INITIAL, es))
  {
    hide P.Parts, Run, Step, Lost;
    var first := [Call(0, packet), GotSocket(0, 0), Acquire(0), WriteFail(0), Reset];
    var s := FirstEpoch(packet, first);
    var second := Exchange(1, packet);
    es := first + second;
    var t := SecondEpoch(s, packet, first, second);
    AlwaysExclusive(es + [Timeout(0)]);
    RunMore(INITIAL, es, Timeout(0));
    es := es + [Timeout(0)];
    StaleTimeout(t);
  }

  lemma FirstEpoch(packet: P.Packet, es: seq<Event>) returns (s: State)
    requires es == [Call(0, packet), GotSocket(0, 0), Acquire(0), WriteFail(0), Reset]
    ensures s == Run(INITIAL, es)
    ensures 0 in s.phases && s.phases[0] == Done(WriteFailed) && 1 !in s.phases
    ensures s.lock == None && !s.stopped && s.packetNum == 0 && s.pending == map[] && s.timers == map[0 := 0]
  {
    hide P.Parts, Run, Step;
    var s3, done := Started(packet);
    var s4;
    s4, done := Advance(s3, done, WriteFail(0));
    AfterFailure(s3, s4);
    s, done := Advance(s4, done, Reset);
    AfterReset(s4, s);
    assert done == es;
  }

  lemma Started(packet: P.Packet) returns (s: State, done: seq<Event>)
    ensures done == [Call(0, packet), GotSocket(0, 0), Acquire(0)] && s == Run(INITIAL, done)
    ensures s.phases == map[0 := Writing(0, 0, 0, Unsettled)] && s.pending == map[0 := 0] && s.timers == map[0 := 0]
    ensures s.lock == Some(0) && !s.stopped
  {
    hide P.Parts, Run;
    NoEvents();
    s, done := Advance(INITIAL, [], Call(0, packet));
    assert s.phases == map[0 := WantSocket];
    s, done := Advance(s, done, GotSocket(0, 0));
    assert s.phases == map[0 := Queued(0)];
    s, done := Advance(s, done, Acquire(0));
  }

  lemma NoEvents()
    ensures Run(INITIAL, []) == INITIAL
  {
  }

  lemma AfterFailure(s: State, t: State)
    requires s.phases == map[0 := Writing(0, 0, 0, Unsettled)] && s.pending == map[0 := 0] && s.lock == Some(0)
    requires t == Step(s, WriteFail(0))
    ensures t.phases == map[0 := Done(WriteFailed)] && t.pending == map[] && t.lock == None
    ensures t.timers == s.timers && t.stopped == s.stopped
  {
  }

  lemma AfterReset(s: State, t: State)
    requires s.phases == map[0 := Done(WriteFailed)] && s.pending == map[] && s.lock == None && s.timers == map[0 := 0]
    requires t == Step(s, Reset)
    ensures t.phases == s.phases && t.lock == None && !t.stopped && t.packetNum == 0 && t.pending == map[]
            && t.timers == s.timers
  {
    assert s.pending.Values == {};
  }

  lemma SecondEpoch(s: State, packet: P.Packet, first: seq<Event>, second: seq<Event>) returns (t: State)
    requires s == Run(INITIAL, first) && second == Exchange(1, packet)
    requires 0 in s.phases && s.phases[0] == Done(WriteFailed) && 1 !in s.phases
    requires s.lock == None && !s.stopped && s.packetNum == 0 && s.pending == map[] && s.timers == map[0 := 0]
    ensures t == Run(INITIAL, first + second)
    ensures 1 in t.phases && t.phases[1] == Waiting(1, 0) && 0 in t.phases && t.phases[0] == Done(WriteFailed)
    ensures t.lock == Some(1) && t.pending == map[0 := 1] && 0 in t.timers && t.timers[0] == 0
  {
    hide P.Parts, Run, Step;
    var done;
    t, done := Advance(s, first, Call(1, packet));
    AfterCall(s, t, packet);
    t, done := SendWhole(t, done);
    assert done == first + second;
  }

  lemma StaleTimeout(t: State)
    requires 1 in t.phases && t.phases[1] == Waiting(1, 0) && 0 in t.phases && t.phases[0] == Done(WriteFailed)
    requires t.lock == Some(1) && t.pending == map[0 := 1] && 0 in t.timers && t.timers[0] == 0
    ensures Lost(Step(t, Timeout(0)), 1)
  {
    assert t.pending - {0} == map[];
  }

  /** What matters of the state: request 0 failed, its timer armed, and nothing in flight. */
  predicate Idle(s: State) {
    && 0 in s.phases && s.phases[0] == Done(WriteFailed) && 1 in s.phases && 1 in s.packets
    && !s.stopped && 0 in s.timers && s.timers[0] == 0
  }

  lemma AfterCall(s: State, t: State, packet: P.Packet)
    requires 0 in s.phases && s.phases[0] == Done(WriteFailed) && 1 !in s.phases && !s.stopped
    requires s.timers == map[0 := 0] && t == Step(s, Call(1, packet))
    ensures Idle(t) && t.phases[1] == WantSocket
    ensures t.lock == s.lock && t.packetNum == s.packetNum && t.pending == s.pending
  {
  }

  lemma SendWhole(s: State, before: seq<Event>) returns (t: State, done: seq<Event>)
    requires s == Run(INITIAL, before) && Idle(s) && s.phases[1] == WantSocket
    requires s.lock == None && s.packetNum == 0 && s.pending == map[]
    ensures done == before + [GotSocket(1, 1)] + [Acquire(1)] + [WritePart(1)] + [WritePart(1)] + [WritePart(1)]
            + [WriteDone(1)]
    ensures t == Run(INITIAL, done) && Idle(t) && t.phases[1] == Waiting(1, 0)
    ensures t.lock == Some(1) && t.pending == map[0 := 1]
  {
    hide P.Parts, Run, Step;
    t, done := Advance(s, before, GotSocket(1, 1));
    SendStep(s, GotSocket(1, 1));
    t, done := Advance(t, done, Acquire(1));
    SendStep(Step(s, GotSocket(1, 1)), Acquire(1));
    var u := t;
    t, done := Advance(t, done, WritePart(1));
    PartStep(u, 0);
    u := t;
    t, done := Advance(t, done, WritePart(1));
    PartStep(u, 1);
    u := t;
    t, done := Advance(t, done, WritePart(1));
    PartStep(u, 2);
    u := t;
    t, done := Advance(t, done, WriteDone(1));
    DoneStep(u);
  }

  lemma SendStep(s: State, e: Event)
    requires Idle(s) && s.lock == None && s.packetNum == 0 && s.pending == map[]
    requires (e == GotSocket(1, 1) && s.phases[1] == WantSocket) || (e == Acquire(1) && s.phases[1] == Queued(1))
    ensures var t := Step(s, e);
            && Idle(t)
            && (e.GotSocket? ==> t.phases[1] == Queued(1) && t.lock == None && t.packetNum == 0 && t.pending == map[])
            && (e.Acquire? ==>
                  t.phases[1] == Writing(1, 0, 0, Unsettled) && t.lock == Some(1) && t.pending == map[0 := 1])
  {
  }

  lemma PartStep(s: State, i: nat)
    requires Idle(s) && i < 3 && s.phases[1] == Writing(1, 0, i, Unsettled) && s.lock == Some(1)
             && s.pending == map[0 := 1]
    ensures var t := Step(s, WritePart(1));
            Idle(t) && t.phases[1] == Writing(1, 0, i + 1, Unsettled) && t.lock == Some(1) && t.pending == map[0 := 1]
  {
    hide P.Parts, WireAt;
  }

  lemma DoneStep(s: State)
    requires Idle(s) && s.phases[1] == Writing(1, 0, 3, Unsettled) && s.lock == Some(1) && s.pending == map[0 := 1]
    ensures var t := Step(s, WriteDone(1));
            Idle(t) && t.phases[1] == Waiting(1, 0) && t.lock == Some(1) && t.pending == map[0 := 1]
  {
  }

  lemma Advance(s: State, es: seq<Event>, e: Event) returns (t: State, fs: seq<Event>)
    requires s == Run(INITIAL, es)
    ensures t == Step(s, e) && fs == es + [e] && t == Run(INITIAL, fs)
  {
    hide Step;
    RunMore(INITIAL, es, e);
    t, fs := Step(s, e), es + [e];
  }
}
