/** What buffered reads keep over every interleaving of chunks, reads, timeouts and closes. */
module AfcReadTheorems {
  import opened Bytes
  import opened Wrappers
  import opened AfcReads

  // ----- invariants over every interleaving -----

  function OutcomeIds(log: seq<Outcome>): (r: seq<nat>)
    ensures |r| == |log| && forall i :: 0 <= i < |r| ==> r[i] == log[i].id
  {
    seq(|log|, i requires 0 <= i < |log| => log[i].id)
  }

  function WaiterIds(ws: seq<Waiter>): (r: seq<nat>)
    ensures |r| == |ws| && forall i :: 0 <= i < |r| ==> r[i] == ws[i].id
  {
    seq(|ws|, i requires 0 <= i < |ws| => ws[i].id)
  }

  /** Delivered blocks and the buffer are the received bytes; no waiter that could be served waits. */
  predicate Conserves(s: Socket) {
    && (s.listening ==> s.received == Flatten(s.delivered) + s.buffer)
    && (!s.listening ==> s.buffer == [] && s.waiters == [])
    && (s.waiters == [] || |s.buffer| < s.waiters[0].n)
    && (s.fatal ==> !s.listening)
  }

  lemma FlattenOne(parts: seq<Bytes>, p: Bytes)
    ensures Flatten(parts + [p]) == Flatten(parts) + p
  {
    assert (parts + [p])[..|parts|] == parts;
  }

  lemma DeliverConserves(s: Socket, id: nat, n: nat)
    requires s.received == Flatten(s.delivered) + s.buffer && n <= |s.buffer|
    ensures var t := Deliver(s, id, n); t.received == Flatten(t.delivered) + t.buffer
  {
    FlattenOne(s.delivered, s.buffer[..n]);
    assert s.buffer == s.buffer[..n] + s.buffer[n..];
  }

  lemma {:induction false} ServeConserves(s: Socket)
    requires s.listening && !s.fatal && s.received == Flatten(s.delivered) + s.buffer
    ensures Conserves(Serve(s)) && Serve(s).listening
    decreases |s.waiters|
  {
    hide Flatten;
    if s.waiters != [] && |s.buffer| >= s.waiters[0].n {
      DeliverConserves(s.(waiters := s.waiters[1..]), s.waiters[0].id, s.waiters[0].n);
      ServeConserves(Deliver(s.(waiters := s.waiters[1..]), s.waiters[0].id, s.waiters[0].n));
    }
  }

  lemma StepConserves(s: Socket, e: Event)
    requires Conserves(s)
    ensures Conserves(Step(s, e))
  {
    hide Flatten, Serve;
    match e
    case DataEvent(chunk) =>
      if s.listening {
        assert s.received + chunk == Flatten(s.delivered) + (s.buffer + chunk);
        ServeConserves(s.(buffer := s.buffer + chunk, received := s.received + chunk));
      }
    case ReadEvent(id, n) =>
      if !s.fatal {
        NoParts();
        var t := Listen(s);
        if |t.buffer| >= n {
          DeliverConserves(t, id, n);
        }
      }
    case _ =>
  }

  lemma NoParts()
    ensures Flatten<Byte>([]) == []
  {
  }

  /**
   * Conservation over every interleaving: since the reader state was created, the delivered blocks in
   * delivery order followed by the buffer are the received bytes, and no waiter waits for bytes already there.
   */
  lemma {:induction false} AlwaysConserves(es: seq<Event>)
    ensures Conserves(Run(FRESH, es))
  {
    if es != [] {
      AlwaysConserves(es[..|es| - 1]);
      StepConserves(Run(FRESH, es[..|es| - 1]), es[|es| - 1]);
    }
  }

  // ----- every read has one outcome -----

  /** How many times `id` occurs as an outcome or as a waiter. */
  function Occurrences(s: Socket, id: nat): nat {
    multiset(OutcomeIds(s.log))[id] + multiset(WaiterIds(s.waiters))[id]
  }

  /** Serving a waiter turns it into an outcome of the same read. */
  lemma ServeOneKeeps(s: Socket, id: nat)
    requires s.waiters != [] && |s.buffer| >= s.waiters[0].n
    ensures Occurrences(Deliver(s.(waiters := s.waiters[1..]), s.waiters[0].id, s.waiters[0].n), id)
            == Occurrences(s, id)
  {
    var w := s.waiters[0];
    var t := Deliver(s.(waiters := s.waiters[1..]), w.id, w.n);
    assert WaiterIds(s.waiters) == [w.id] + WaiterIds(s.waiters[1..]);
    assert OutcomeIds(t.log) == OutcomeIds(s.log) + [w.id];
  }

  lemma {:induction false} ServeKeeps(s: Socket, id: nat)
    ensures Occurrences(Serve(s), id) == Occurrences(s, id)
    decreases |s.waiters|
  {
    hide Occurrences;
    if s.waiters != [] && |s.buffer| >= s.waiters[0].n {
      ServeOneKeeps(s, id);
      ServeKeeps(Deliver(s.(waiters := s.waiters[1..]), s.waiters[0].id, s.waiters[0].n), id);
    }
  }

  lemma RejectedIds(ws: seq<Waiter>)
    ensures OutcomeIds(RejectAll(ws)) == WaiterIds(ws)
  {
  }

  lemma AppendOutcomes(a: seq<Outcome>, b: seq<Outcome>)
    ensures OutcomeIds(a + b) == OutcomeIds(a) + OutcomeIds(b)
  {
  }

  /** A read adds one occurrence of its id; nothing else adds or removes any. */
  lemma StepKeeps(s: Socket, e: Event, id: nat)
    requires s.listening || s.waiters == []
    ensures Occurrences(Step(s, e), id) == Occurrences(s, id) + (if e.ReadEvent? && e.id == id then 1 else 0)
  {
    match e
    case DataEvent(chunk) =>
      if s.listening {
        ServeKeeps(s.(buffer := s.buffer + chunk, received := s.received + chunk), id);
      }
    case ReadEvent(rid, n) =>
      var t := Listen(s);
      if s.fatal || |t.buffer| >= n {
        assert OutcomeIds(Step(s, e).log) == OutcomeIds(s.log) + [rid];
      } else {
        assert WaiterIds(Step(s, e).waiters) == WaiterIds(t.waiters) + [rid];
      }
    case TimeoutEvent(tid) => TimeoutKeeps(s, tid, id);
    case CloseEvent =>
      RejectedIds(s.waiters);
      AppendOutcomes(s.log, RejectAll(s.waiters));
    case FatalEvent =>
      RejectedIds(s.waiters);
      AppendOutcomes(s.log, RejectAll(s.waiters));
  }

  lemma TimeoutKeeps(s: Socket, tid: nat, id: nat)
    ensures Occurrences(Timeout(s, tid), id) == Occurrences(s, id)
  {
    var i := IndexOfWaiter(s.waiters, tid);
    if i >= 0 {
      var others := s.waiters[..i] + s.waiters[i + 1..];
      RejectedIds(others);
      AppendOutcomes(s.log, RejectAll(others));
      AppendOutcomes(s.log + RejectAll(others), [Rejected(tid)]);
      assert OutcomeIds([Rejected(tid)]) == [tid];
      assert s.waiters == s.waiters[..i] + [s.waiters[i]] + s.waiters[i + 1..];
      assert WaiterIds(s.waiters) == WaiterIds(s.waiters[..i]) + [tid] + WaiterIds(s.waiters[i + 1..]);
      assert WaiterIds(others) == WaiterIds(s.waiters[..i]) + WaiterIds(s.waiters[i + 1..]);
      assert WaiterIds([]) == [];
    }
  }

  /** How many reads with this id were made. */
  function Reads(es: seq<Event>, id: nat): nat {
    if es == [] then 0
    else Reads(es[..|es| - 1], id) + (if es[|es| - 1].ReadEvent? && es[|es| - 1].id == id then 1 else 0)
  }

  /** Over every run: each read is waiting or has exactly one outcome. */
  lemma {:induction false} OneOutcomeEach(es: seq<Event>, id: nat)
    ensures Occurrences(Run(FRESH, es), id) == Reads(es, id)
  {
    hide Step, Occurrences;
    if es == [] {
      NothingYet(id);
    } else {
      OneOutcomeEach(es[..|es| - 1], id);
      AlwaysConserves(es[..|es| - 1]);
      StepKeeps(Run(FRESH, es[..|es| - 1]), es[|es| - 1], id);
    }
  }

  lemma NothingYet(id: nat)
    ensures Occurrences(FRESH, id) == 0
  {
  }

  /** A block has the length its read asked for. */
  predicate RightLengths(s: Socket, es: seq<Event>) {
    && (forall o :: o in s.log && o.Block? ==> exists e :: e in es && e == ReadEvent(o.id, |o.data|))
    && (forall w :: w in s.waiters ==> ReadEvent(w.id, w.n) in es)
  }

  lemma {:induction false} ServeLengths(s: Socket, es: seq<Event>)
    requires RightLengths(s, es)
    ensures RightLengths(Serve(s), es)
    decreases |s.waiters|
  {
    if s.waiters != [] && |s.buffer| >= s.waiters[0].n {
      var w := s.waiters[0];
      var t := Deliver(s.(waiters := s.waiters[1..]), w.id, w.n);
      assert w in s.waiters && ReadEvent(w.id, w.n) in es;
      assert forall x :: x in t.waiters ==> x in s.waiters;
      ServeLengths(t, es);
    }
  }

  lemma {:induction false} LengthsAreRight(es: seq<Event>)
    ensures RightLengths(Run(FRESH, es), es)
  {
    if es != [] {
      var init, e := es[..|es| - 1], es[|es| - 1];
      var s := Run(FRESH, init);
      LengthsAreRight(init);
      assert forall x :: x in init ==> x in es;
      assert e in es && RightLengths(s, es);
      match e
      case DataEvent(chunk) =>
        if s.listening {
          ServeLengths(s.(buffer := s.buffer + chunk, received := s.received + chunk), es);
        }
      case _ =>
    }
  }

  // ----- a single reader -----

  /** What a reader that makes one read at a time asks for next, given the blocks so far. */
  type Program = f: seq<Bytes> -> nat | true witness bs => 1

  ghost predicate AlwaysAsks(want: Program) {
    forall bs :: want(bs) > 0
  }

  /** Either a chunk arrives or the reader takes its turn; it reads only when it is not waiting. */
  datatype Turn = Chunk(data: Bytes) | ReaderTurn

  function SingleStep(want: Program, s: Socket, t: Turn): Socket {
    match t
    case Chunk(data) => Step(s, DataEvent(data))
    case ReaderTurn => if s.waiters == [] then Step(s, ReadEvent(|s.delivered|, want(s.delivered))) else s
  }

  function SingleRun(want: Program, ts: seq<Turn>): Socket {
    if ts == [] then FRESH.(listening := true)
    else SingleStep(want, SingleRun(want, ts[..|ts| - 1]), ts[|ts| - 1])
  }

  /** Blocks cut off a byte string with nothing else going on. */
  ghost function Cut(want: Program, blocks: seq<Bytes>, rest: Bytes): (seq<Bytes>, Bytes)
    requires AlwaysAsks(want)
    decreases |rest|
  {
    var n := want(blocks);
    if |rest| >= n then Cut(want, blocks + [rest[..n]], rest[n..]) else (blocks, rest)
  }

  /** The blocks have the lengths the program asked for, at most one read waits, and for the next length. */
  ghost predicate Follows(want: Program, s: Socket) {
    && s.listening && !s.fatal && Conserves(s)
    && (forall k :: 0 <= k < |s.delivered| ==> |s.delivered[k]| == want(s.delivered[..k]))
    && (s.waiters != [] ==> |s.waiters| == 1 && s.waiters[0].n == want(s.delivered))
  }

  lemma {:induction false} CutDelivered(want: Program, blocks: seq<Bytes>, k: nat, rest: Bytes)
    requires AlwaysAsks(want) && k <= |blocks|
    requires forall i :: 0 <= i < |blocks| ==> |blocks[i]| == want(blocks[..i])
    ensures Cut(want, blocks[..|blocks| - k], Flatten(blocks[|blocks| - k..]) + rest) == Cut(want, blocks, rest)
  {
    hide Flatten;
    var m := |blocks| - k;
    if k == 0 {
      NoParts();
      assert blocks[..m] == blocks && blocks[m..] == [] && [] + rest == rest;
    } else {
      CutDelivered(want, blocks, k - 1, rest);
      FlattenHead(blocks[m..]);
      assert blocks[m..][1..] == blocks[m + 1..];
      var bytes := Flatten(blocks[m..]) + rest;
      assert bytes == blocks[m] + (Flatten(blocks[m + 1..]) + rest);
      assert bytes[..|blocks[m]|] == blocks[m] && bytes[|blocks[m]|..] == Flatten(blocks[m + 1..]) + rest;
      assert blocks[..m] + [blocks[m]] == blocks[..m + 1];
    }
  }

  lemma FlattenHead(parts: seq<Bytes>)
    requires parts != []
    ensures Flatten(parts) == parts[0] + Flatten(parts[1..])
  {
    var one: seq<Bytes> := [parts[0]];
    assert parts == one + parts[1..];
    FlattenAppend(one, parts[1..]);
    assert one[..0] == [] && Flatten(one) == [] + parts[0] == parts[0];
  }

  lemma DeliverFollows(want: Program, s: Socket, id: nat)
    requires AlwaysAsks(want) && s.listening && !s.fatal && s.waiters == []
    requires s.received == Flatten(s.delivered) + s.buffer && |s.buffer| >= want(s.delivered)
    requires forall k :: 0 <= k < |s.delivered| ==> |s.delivered[k]| == want(s.delivered[..k])
    ensures Follows(want, Deliver(s, id, want(s.delivered)))
  {
    hide Flatten;
    var n := want(s.delivered);
    DeliverConserves(s, id, n);
    var t := Deliver(s, id, n);
    forall k | 0 <= k < |t.delivered|
      ensures |t.delivered[k]| == want(t.delivered[..k])
    {
      assert t.delivered[..k] == s.delivered[..k];
      if k == |s.delivered| {
        assert s.delivered[..k] == s.delivered;
      }
    }
  }

  lemma {:induction false} SingleFollows(want: Program, ts: seq<Turn>)
    requires AlwaysAsks(want)
    ensures Follows(want, SingleRun(want, ts))
  {
    hide Flatten;
    if ts == [] {
      NoParts();
    } else {
      var s, t := SingleRun(want, ts[..|ts| - 1]), ts[|ts| - 1];
      SingleFollows(want, ts[..|ts| - 1]);
      match t
      case Chunk(data) =>
        var u := s.(buffer := s.buffer + data, received := s.received + data);
        assert s.received + data == Flatten(s.delivered) + (s.buffer + data);
        if u.waiters != [] && |u.buffer| >= u.waiters[0].n {
          var v := u.(waiters := u.waiters[1..]);
          assert v.waiters == [];
          DeliverFollows(want, v, u.waiters[0].id);
          assert Serve(u) == Serve(Deliver(v, u.waiters[0].id, u.waiters[0].n));
        }
      case ReaderTurn =>
        if s.waiters == [] && |s.buffer| >= want(s.delivered) {
          DeliverFollows(want, s, |s.delivered|);
        }
    }
  }

  /**
   * A single reader sees the same blocks for every chunking and every interleaving: what it has so far
   * continues to the blocks cut off everything received, and once it waits it has them all.
   */
  lemma SingleReaderSeesTheCut(want: Program, ts: seq<Turn>)
    requires AlwaysAsks(want)
    ensures var s := SingleRun(want, ts);
            && Cut(want, [], s.received) == Cut(want, s.delivered, s.buffer)
            && (s.waiters != [] ==> (s.delivered, s.buffer) == Cut(want, [], s.received))
  {
    var s := SingleRun(want, ts);
    SingleFollows(want, ts);
    CutDelivered(want, s.delivered, |s.delivered|, s.buffer);
    assert s.delivered[..0] == [] && s.delivered[0..] == s.delivered;
  }

  // ----- reads that overtake -----

  /** With several readers the order of delivery is not the order of the reads: a short read can overtake. */
  lemma ShortReadOvertakes(c: Byte)
    ensures Run(FRESH, [ReadEvent(0, 4), DataEvent([c]), ReadEvent(1, 1)]).log == [Block(1, [c])]
    ensures Run(FRESH, [ReadEvent(0, 4), DataEvent([c]), ReadEvent(1, 1)]).waiters == [Waiter(0, 4)]
  {
    var es := [ReadEvent(0, 4), DataEvent([c]), ReadEvent(1, 1)];
    assert es[..2][..1] == es[..1] && es[..1][..0] == [];
    assert Run(FRESH, es[..1][..0]) == FRESH;
    var s1 := Run(FRESH, es[..1]);
    assert s1 == Step(FRESH, ReadEvent(0, 4)) && s1.waiters == [Waiter(0, 4)];
    var s2 := Run(FRESH, es[..2]);
    assert s2 == Step(s1, DataEvent([c]));
    assert s2.buffer == [c];
    assert es[..|es| - 1] == es[..2];
    assert [c][..1] == [c];
  }

  /** A read is answered ahead of waiting ones exactly when it asks for no more than is buffered. */
  lemma OvertakesExactlyWhen(s: Socket, id: nat, n: nat)
    requires s.listening && !s.fatal && s.waiters != []
    ensures var t := Step(s, ReadEvent(id, n));
            t.waiters == s.waiters && t.log != s.log <==> n <= |s.buffer|
  {
  }
}
