/**
 * The per-socket buffered reader of the AFC client: chunks accumulate, waiting reads are served in
 * order, and a reader is torn down with its socket.
 */
module AfcReads {
  import opened Bytes
  import opened Wrappers

  datatype Waiter = Waiter(id: nat, n: nat)

  /** What became of a read: its block, a rejection, or a refusal because the socket is dead. */
  datatype Outcome = Block(id: nat, data: Bytes) | Rejected(id: nat) | Refused(id: nat)

  /**
   * `listening` says that the socket has reader state; `received` and `delivered` record what arrived
   * and what was handed out, in order, since that state was created.
   */
  datatype Socket = Socket(fatal: bool, listening: bool, buffer: Bytes, waiters: seq<Waiter>, log: seq<Outcome>,
                           received: Bytes, delivered: seq<Bytes>)

  const FRESH := Socket(false, false, [], [], [], [], [])

  datatype Event =
    | DataEvent(chunk: Bytes) | ReadEvent(id: nat, n: nat) | TimeoutEvent(id: nat) | CloseEvent | FatalEvent

  /** Hand the first waiter its block for as long as the buffer holds it. */
  function Serve(s: Socket): Socket
    decreases |s.waiters|
  {
    if s.waiters != [] && |s.buffer| >= s.waiters[0].n then
      Serve(Deliver(s.(waiters := s.waiters[1..]), s.waiters[0].id, s.waiters[0].n))
    else s
  }

  function Deliver(s: Socket, id: nat, n: nat): Socket
    requires n <= |s.buffer|
  {
    s.(buffer := s.buffer[n..], log := s.log + [Block(id, s.buffer[..n])], delivered := s.delivered + [s.buffer[..n]])
  }

  function RejectAll(ws: seq<Waiter>): (r: seq<Outcome>)
    ensures |r| == |ws| && forall i :: 0 <= i < |r| ==> r[i] == Rejected(ws[i].id)
  {
    seq(|ws|, i requires 0 <= i < |ws| => Rejected(ws[i].id))
  }

  /** `cleanupSocketState`: waiting reads are rejected and the state is forgotten. */
  function Cleanup(s: Socket): Socket {
    s.(listening := false, buffer := [], waiters := [], log := s.log + RejectAll(s.waiters))
  }

  function OnData(s: Socket, chunk: Bytes): Socket {
    if !s.listening then s
    else Serve(s.(buffer := s.buffer + chunk, received := s.received + chunk))
  }

  /** `ensureSocketState`. */
  function Listen(s: Socket): Socket {
    if s.listening then s else s.(listening := true, buffer := [], waiters := [], received := [], delivered := [])
  }

  function ReadExact(s: Socket, id: nat, n: nat): Socket {
    if s.fatal then s.(log := s.log + [Refused(id)])
    else
      var t := Listen(s);
      if |t.buffer| >= n then Deliver(t, id, n) else t.(waiters := t.waiters + [Waiter(id, n)])
  }

  function IndexOfWaiter(ws: seq<Waiter>, id: nat): (i: int)
    ensures -1 <= i < |ws| && (i >= 0 ==> ws[i].id == id)
    ensures i < 0 ==> forall w :: w in ws ==> w.id != id
  {
    if ws == [] then -1
    else if ws[0].id == id then 0
    else
      var i := IndexOfWaiter(ws[1..], id);
      assert forall w :: w in ws ==> w == ws[0] || w in ws[1..];
      if i < 0 then -1 else i + 1
  }

  /** A read that times out kills the socket; the others are rejected before it. */
  function Timeout(s: Socket, id: nat): Socket {
    var i := IndexOfWaiter(s.waiters, id);
    if i < 0 then s
    else
      var others := s.waiters[..i] + s.waiters[i + 1..];
      Cleanup(s.(waiters := others, fatal := true)).(log := s.log + RejectAll(others) + [Rejected(id)])
  }

  function Step(s: Socket, e: Event): Socket {
    match e
    case DataEvent(chunk) => OnData(s, chunk)
    case ReadEvent(id, n) => ReadExact(s, id, n)
    case TimeoutEvent(id) => Timeout(s, id)
    case CloseEvent => Cleanup(s)
    case FatalEvent => Cleanup(s.(fatal := true))
  }

  function Run(s: Socket, es: seq<Event>): Socket {
    if es == [] then s else Step(Run(s, es[..|es| - 1]), es[|es| - 1])
  }
}

module AfcSocketReader {
  import opened Bytes
  import opened Wrappers
  import opened AfcReads

  class SocketReader {
    var fatal: bool
    var listening: bool
    var buffer: Bytes
    var waiters: seq<Waiter>
    var log: seq<Outcome>
    ghost var received: Bytes
    ghost var delivered: seq<Bytes>

    ghost function Current(): Socket
      reads this
    {
      Socket(fatal, listening, buffer, waiters, log, received, delivered)
    }

    constructor ()
      ensures Current() == FRESH
    {
      fatal, listening, buffer, waiters, log := false, false, [], [], [];
      received, delivered := [], [];
    }

    method OnData(chunk: Bytes)
      modifies this
      ensures Current() == AfcReads.OnData(old(Current()), chunk)
    {
      if !listening {
        return;
      }
      buffer := buffer + chunk;
      received := received + chunk;
      ghost var all := Serve(Current());
      while waiters != [] && |buffer| >= waiters[0].n
        invariant Serve(Current()) == all
        decreases |waiters|
      {
        var w := waiters[0];
        waiters := waiters[1..];
        log := log + [Block(w.id, buffer[..w.n])];
        delivered := delivered + [buffer[..w.n]];
        buffer := buffer[w.n..];
      }
    }

    method ReadExact(id: nat, n: nat)
      modifies this
      ensures Current() == AfcReads.ReadExact(old(Current()), id, n)
    {
      if fatal {
        log := log + [Refused(id)];
        return;
      }
      if !listening {
        listening, buffer, waiters := true, [], [];
        received, delivered := [], [];
      }
      if |buffer| >= n {
        log := log + [Block(id, buffer[..n])];
        delivered := delivered + [buffer[..n]];
        buffer := buffer[n..];
      } else {
        waiters := waiters + [Waiter(id, n)];
      }
    }

    method Cleanup()
      modifies this
      ensures Current() == AfcReads.Cleanup(old(Current()))
    {
      ghost var ws := waiters;
      assert ws[..0] == [] && RejectAll([]) == [];
      ghost var k := 0;
      while waiters != []
        invariant k <= |ws| && waiters == ws[k..]
        invariant log == old(log) + RejectAll(ws[..k])
        invariant fatal == old(fatal) && received == old(received) && delivered == old(delivered)
        decreases |waiters|
      {
        log := log + [Rejected(waiters[0].id)];
        assert RejectAll(ws[..k + 1]) == RejectAll(ws[..k]) + [Rejected(ws[k].id)];
        waiters := waiters[1..];
        k := k + 1;
      }
      assert ws[..k] == ws;
      listening, buffer := false, [];
    }

    method Timeout(id: nat)
      modifies this
      ensures Current() == AfcReads.Timeout(old(Current()), id)
    {
      var i := IndexOfWaiter(waiters, id);
      if i >= 0 {
        waiters := waiters[..i] + waiters[i + 1..];
        fatal := true;
        Cleanup();
        log := log + [Rejected(id)];
      }
    }
  }
}
