/**
 * The AFC packet demultiplexer as a state machine over atomic steps.  The send lock is held until the
 * request's own promise settles: the function run under the lock returns that promise.
 */
module AfcDemuxSpec {
  import opened Bytes
  import opened Wrappers
  import P = AfcPackets

  type Req = nat
  type Sock = nat

  datatype Outcome =
    | Replied(sock: Sock, num: nat, meaning: P.Meaning)
    | TimedOut | WriteFailed | ReaderFailed | Stopped | Replaced | NoSocket

  /** The promise registered with a packet number, while the packet is still being written. */
  datatype Promise = Unsettled | Settled(o: Outcome)

  datatype Phase =
    | WantSocket                                                      // awaiting the socket
    | Queued(sock: Sock)                                              // awaiting the send lock
    | Writing(sock: Sock, num: nat, part: nat, promise: Promise)      // holding it, `part` writes made
    | Waiting(sock: Sock, num: nat)                                   // holding it, awaiting the promise
    | Done(o: Outcome)

  /** One packet handed to a socket. */
  datatype Sent = Sent(req: Req, sock: Sock, num: nat)

  /** One reply read from a socket when `after` packets had been handed out. */
  datatype Arrival = Arrival(sock: Sock, reply: P.Reply, after: nat)

  /** `sent`, `epoch`, `failed` and `replies` only record what happened. */
  datatype State = State(
    phases: map<Req, Phase>, packets: map<Req, P.Packet>, pending: map<nat, Req>, timers: map<Req, nat>,
    packetNum: nat, stopped: bool, readerSocket: Option<Sock>, readerActive: bool, lock: Option<Req>,
    wire: map<Sock, Bytes>, sent: seq<Sent>, epoch: nat, failed: set<Sock>, replies: seq<Arrival>)

  const INITIAL := State(map[], map[], map[], map[], 0, false, None, false, None, map[], [], 0, {}, [])

  datatype Event =
    | Call(r: Req, packet: P.Packet)      // sendAndWait
    | GotSocket(r: Req, sock: Sock)
    | SocketRefused(r: Req)
    | Acquire(r: Req)                     // the lock is granted
    | WritePart(r: Req)
    | WriteDone(r: Req)
    | WriteFail(r: Req)
    | Timeout(r: Req)
    | ReplyArrives(sock: Sock, reply: P.Reply)
    | ReaderFail(sock: Sock)
    | Stop
    | Reset                               // resetForNewSocket

  function WireAt(s: State, k: Sock): Bytes {
    if k in s.wire then s.wire[k] else []
  }

  function Settle(p: Phase, o: Outcome): Phase {
    match p
    case Writing(sock, num, part, Unsettled) => Writing(sock, num, part, Settled(o))
    case Waiting(_, _) => Done(o)
    case _ => p
  }

  /** The lock is released when its holder is done. */
  function Released(lock: Option<Req>, phases: map<Req, Phase>): Option<Req> {
    if lock.Some? && lock.value in phases && phases[lock.value].Done? then None else lock
  }

  function SetPhase(s: State, r: Req, p: Phase): State {
    var phases := s.phases[r := p];
    s.(phases := phases, lock := Released(s.lock, phases))
  }

  function SettleOne(s: State, r: Req, o: Outcome): State {
    if r in s.phases then SetPhase(s, r, Settle(s.phases[r], o)) else s
  }

  function SettleAll(phases: map<Req, Phase>, rs: set<Req>, o: Outcome): map<Req, Phase> {
    map r | r in phases :: if r in rs then Settle(phases[r], o) else phases[r]
  }

  /** Every registered promise is rejected and its timer cleared. */
  function FailPending(s: State, o: Outcome): State {
    var phases := SettleAll(s.phases, s.pending.Values, o);
    s.(phases := phases, lock := Released(s.lock, phases), timers := s.timers - s.pending.Values, pending := map[])
  }

  function OnReaderFail(s: State, sock: Sock): State {
    var t := if !s.stopped && s.readerSocket == Some(sock) then FailPending(s, ReaderFailed) else s;
    if t.readerSocket == Some(sock) then t.(readerActive := false) else t
  }

  function OnReply(s: State, sock: Sock, reply: P.Reply): State {
    match P.Interpret(reply)
    case Err(_) => OnReaderFail(s, sock)
    case Ok(meaning) =>
      var t := s.(replies := s.replies + [Arrival(sock, reply, |s.sent|)]);
      if reply.num in s.pending then
        var r := s.pending[reply.num];
        SettleOne(t.(pending := t.pending - {reply.num}, timers := t.timers - {r}), r,
                  Replied(sock, reply.num, meaning))
      else t
  }

  function OnTimeout(s: State, r: Req): State {
    if r in s.timers then
      var num := s.timers[r];
      var t := s.(timers := s.timers - {r});
      if num in s.pending then SettleOne(t.(pending := t.pending - {num}), r, TimedOut) else t
    else s
  }

  function OnCall(s: State, r: Req, packet: P.Packet): State {
    if r in s.phases then s
    else s.(phases := s.phases[r := if s.stopped then Done(Stopped) else WantSocket], packets := s.packets[r := packet])
  }

  function OnSocket(s: State, r: Req, sock: Sock): State {
    if r in s.phases && s.phases[r].WantSocket? then
      if s.stopped then s.(phases := s.phases[r := Done(Stopped)])
      else s.(phases := s.phases[r := Queued(sock)], readerSocket := Some(sock), readerActive := true)
    else s
  }

  function OnRefused(s: State, r: Req): State {
    if r in s.phases && s.phases[r].WantSocket? then s.(phases := s.phases[r := Done(NoSocket)]) else s
  }

  function OnAcquire(s: State, r: Req): State {
    if r in s.phases && s.phases[r].Queued? && s.lock.None? then
      var sock := s.phases[r].sock;
      s.(phases := s.phases[r := Writing(sock, s.packetNum, 0, Unsettled)], lock := Some(r),
         pending := s.pending[s.packetNum := r], timers := s.timers[r := s.packetNum], packetNum := s.packetNum + 1,
         sent := s.sent + [Sent(r, sock, s.packetNum)])
    else s
  }

  function OnWritePart(s: State, r: Req): State {
    if r in s.phases && r in s.packets && s.phases[r].Writing? && s.phases[r].part < 3 then
      var p := s.phases[r];
      s.(phases := s.phases[r := p.(part := p.part + 1)],
         wire := s.wire[p.sock := WireAt(s, p.sock) + P.Parts(s.packets[r], p.num)[p.part]])
    else s
  }

  function OnWriteDone(s: State, r: Req): State {
    if r in s.phases && s.phases[r].Writing? && s.phases[r].part == 3 then
      var p := s.phases[r];
      SetPhase(s, r, if p.promise.Settled? then Done(p.promise.o) else Waiting(p.sock, p.num))
    else s
  }

  /** `_clearPending` and rethrow; the timer stays armed. */
  function OnWriteFail(s: State, r: Req): State {
    if r in s.phases && s.phases[r].Writing? then
      var p := s.phases[r];
      SetPhase(s.(pending := s.pending - {p.num}, failed := s.failed + {p.sock}), r, Done(WriteFailed))
    else s
  }

  function OnStop(s: State): State {
    FailPending(s.(stopped := true), Stopped).(readerSocket := None, readerActive := false)
  }

  function OnReset(s: State): State {
    FailPending(s, Replaced).(readerSocket := None, readerActive := false, stopped := false, packetNum := 0,
                              epoch := |s.sent|)
  }

  function Step(s: State, e: Event): State {
    match e
    case Call(r, packet) => OnCall(s, r, packet)
    case GotSocket(r, sock) => OnSocket(s, r, sock)
    case SocketRefused(r) => OnRefused(s, r)
    case Acquire(r) => OnAcquire(s, r)
    case WritePart(r) => OnWritePart(s, r)
    case WriteDone(r) => OnWriteDone(s, r)
    case WriteFail(r) => OnWriteFail(s, r)
    case Timeout(r) => OnTimeout(s, r)
    case ReplyArrives(sock, reply) => OnReply(s, sock, reply)
    case ReaderFail(sock) => OnReaderFail(s, sock)
    case Stop => OnStop(s)
    case Reset => OnReset(s)
  }

  function Run(s: State, es: seq<Event>): State {
    if es == [] then s else Step(Run(s, es[..|es| - 1]), es[|es| - 1])
  }
}

module AfcPacketDemux {
  import opened Bytes
  import opened Wrappers
  import opened AfcDemuxSpec
  import P = AfcPackets

  /** Each method is one uninterrupted stretch of the asynchronous code. */
  class AfcPacketDemux {
    var phases: map<Req, Phase>
    var packets: map<Req, P.Packet>
    var pending: map<nat, Req>
    var timers: map<Req, nat>
    var packetNum: nat
    var stopped: bool
    var readerSocket: Option<Sock>
    var readerActive: bool
    var lock: Option<Req>
    var wire: map<Sock, Bytes>
    ghost var sent: seq<Sent>
    ghost var epoch: nat
    ghost var failed: set<Sock>
    ghost var replies: seq<Arrival>

    ghost function Current(): State
      reads this
    {
      State(phases, packets, pending, timers, packetNum, stopped, readerSocket, readerActive, lock, wire,
            sent, epoch, failed, replies)
    }

    constructor ()
      ensures Current() == INITIAL
    {
      phases, packets, pending, timers := map[], map[], map[], map[];
      packetNum, stopped, readerSocket, readerActive, lock, wire := 0, false, None, false, None, map[];
      sent, epoch, failed, replies := [], 0, {}, [];
    }

    method SendAndWait(r: Req, packet: P.Packet)
      modifies this
      ensures Current() == OnCall(old(Current()), r, packet)
    {
      if r !in phases {
        phases := phases[r := if stopped then Done(Stopped) else WantSocket];
        packets := packets[r := packet];
      }
    }

    method ResumeWithSocket(r: Req, sock: Sock)
      modifies this
      ensures Current() == OnSocket(old(Current()), r, sock)
    {
      if r in phases && phases[r].WantSocket? {
        if stopped {
          phases := phases[r := Done(Stopped)];
        } else {
          readerSocket, readerActive := Some(sock), true;
          phases := phases[r := Queued(sock)];
        }
      }
    }

    method ResumeWithoutSocket(r: Req)
      modifies this
      ensures Current() == OnRefused(old(Current()), r)
    {
      if r in phases && phases[r].WantSocket? {
        phases := phases[r := Done(NoSocket)];
      }
    }

    /** The lock is granted: number, waiter and timer are set up in one go. */
    method SendLocked(r: Req)
      modifies this`packetNum, this`pending, this`timers, this`lock, this`sent, this`phases
      ensures Current() == OnAcquire(old(Current()), r)
    {
      if r in phases && phases[r].Queued? && lock.None? {
        var sock := phases[r].sock;
        var num := packetNum;
        packetNum := packetNum + 1;
        RegisterPending(num, r);
        lock := Some(r);
        sent := sent + [Sent(r, sock, num)];
        phases := phases[r := Writing(sock, num, 0, Unsettled)];
      }
    }

    /** A waiter and its timer. */
    method RegisterPending(num: nat, r: Req)
      modifies this`pending, this`timers
      ensures pending == old(pending)[num := r] && timers == old(timers)[r := num]
    {
      timers := timers[r := num];
      pending := pending[num := r];
    }

    method WriteBufferToSocket(r: Req)
      modifies this
      ensures Current() == OnWritePart(old(Current()), r)
    {
      if r in phases && r in packets && phases[r].Writing? && phases[r].part < 3 {
        var p := phases[r];
        var before := if p.sock in wire then wire[p.sock] else [];
        wire := wire[p.sock := before + P.Parts(packets[r], p.num)[p.part]];
        phases := phases[r := p.(part := p.part + 1)];
      }
    }

    method PacketWritten(r: Req)
      modifies this
      ensures Current() == OnWriteDone(old(Current()), r)
    {
      if r in phases && phases[r].Writing? && phases[r].part == 3 {
        var p := phases[r];
        phases := phases[r := if p.promise.Settled? then Done(p.promise.o) else Waiting(p.sock, p.num)];
        lock := Released(lock, phases);
      }
    }

    /** `_clearPending` and rethrow; the timer stays armed. */
    method WriteThrew(r: Req)
      modifies this
      ensures Current() == OnWriteFail(old(Current()), r)
    {
      if r in phases && phases[r].Writing? {
        var p := phases[r];
        pending := pending - {p.num};
        failed := failed + {p.sock};
        phases := phases[r := Done(WriteFailed)];
        lock := Released(lock, phases);
      }
    }

    method SettlePromise(r: Req, o: Outcome)
      modifies this`phases, this`lock
      ensures Current() == SettleOne(old(Current()), r, o)
    {
      if r in phases {
        phases := phases[r := Settle(phases[r], o)];
        lock := Released(lock, phases);
      }
    }

    method TimerFired(r: Req)
      modifies this
      ensures Current() == OnTimeout(old(Current()), r)
    {
      if r !in timers {
        return;
      }
      var num := timers[r];
      timers := timers - {r};
      if num !in pending {
        return;
      }
      pending := pending - {num};
      SettlePromise(r, TimedOut);
    }

    /** One turn of the reader loop. */
    method OnReply(sock: Sock, reply: P.Reply)
      modifies this
      ensures Current() == AfcDemuxSpec.OnReply(old(Current()), sock, reply)
    {
      hide AfcDemuxSpec.FailPending, P.Interpret;
      match P.Interpret(reply)
      case Err(_) => ReaderThrew(sock);
      case Ok(meaning) =>
        replies := replies + [Arrival(sock, reply, |sent|)];
        if reply.num in pending {
          var r := pending[reply.num];
          pending := pending - {reply.num};
          timers := timers - {r};
          SettlePromise(r, Replied(sock, reply.num, meaning));
        }
    }

    method ReaderThrew(sock: Sock)
      modifies this
      ensures Current() == OnReaderFail(old(Current()), sock)
    {
      hide AfcDemuxSpec.FailPending;
      if !stopped && readerSocket == Some(sock) {
        FailPending(ReaderFailed);
      }
      if readerSocket == Some(sock) {
        readerActive := false;
      }
    }

    method Stop()
      modifies this
      ensures Current() == OnStop(old(Current()))
    {
      hide AfcDemuxSpec.FailPending;
      stopped := true;
      FailPending(Stopped);
      readerSocket, readerActive := None, false;
    }

    method ResetForNewSocket()
      modifies this
      ensures Current() == OnReset(old(Current()))
    {
      hide AfcDemuxSpec.FailPending;
      FailPending(Replaced);
      readerSocket, readerActive := None, false;
      stopped := false;
      packetNum := 0;
      epoch := |sent|;
    }

    /** Rejects the waiters one by one, then clears the map. */
    method FailPending(o: Outcome)
      modifies this`phases, this`lock, this`timers, this`pending
      ensures Current() == AfcDemuxSpec.FailPending(old(Current()), o)
    {
      hide SettleAll, Settle, Released;
      phases, timers := RejectEach(phases, timers, pending.Values, o);
      lock := Released(lock, phases);
      pending := map[];
    }
  }

  method RejectEach(phases: map<Req, Phase>, timers: map<Req, nat>, waiters: set<Req>, o: Outcome)
    returns (phases': map<Req, Phase>, timers': map<Req, nat>)
    ensures phases' == SettleAll(phases, waiters, o) && timers' == timers - waiters
  {
    hide Settle;
    var todo := waiters;
    phases', timers' := phases, timers;
    assert SettleAll(phases, waiters - todo, o) == phases;
    while todo != {}
      invariant todo <= waiters
      invariant phases' == SettleAll(phases, waiters - todo, o)
      invariant timers' == timers - (waiters - todo)
      decreases todo
    {
      var r :| r in todo;
      var rest := todo - {r};
      assert waiters - rest == (waiters - todo) + {r};
      if r in phases {
        phases' := phases'[r := Settle(phases[r], o)];
      }
      timers' := timers' - {r};
      todo := rest;
    }
    assert waiters - {} == waiters;
  }
}
