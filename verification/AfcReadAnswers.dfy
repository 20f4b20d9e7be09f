/** Which read gets which bytes, step by step. */
module AfcReadAnswers {
  import opened Bytes
  import opened AfcReads
  import opened AfcReadTheorems

  /** The bytes that the first `k` waiting reads ask for together. */
  function Wanted(ws: seq<Waiter>, k: nat): nat
    requires k <= |ws|
  {
    if k == 0 then 0 else Wanted(ws, k - 1) + ws[k - 1].n
  }

  /** The next `n` bytes of `b` behind the first `from`, for read `id`. */
  predicate Gets(o: Outcome, id: nat, b: Bytes, from: nat, n: nat) {
    from + n <= |b| && o == Block(id, b[from..from + n])
  }

  /** The outcomes from place `at` answer the first `k` reads, one after the other. */
  predicate AllGet(log: seq<Outcome>, at: nat, ws: seq<Waiter>, k: nat, b: Bytes) {
    k <= |ws| && at + k <= |log| && forall i :: 0 <= i < k ==> Gets(log[at + i], ws[i].id, b, Wanted(ws, i), ws[i].n)
  }

  /**
   * Out of the bytes `b` the first `k` waiting reads are answered, in order, each with those next in line; the
   * others go on waiting, and the first of them asks for more than there is left.
   */
  ghost predicate Answered(b: Bytes, log: seq<Outcome>, ws: seq<Waiter>, k: nat, t: Socket) {
    && |t.log| == |log| + k && t.log[..|log|] == log && AllGet(t.log, |log|, ws, k, b)
    && Wanted(ws, k) <= |b| && t.buffer == b[Wanted(ws, k)..] && t.waiters == ws[k..]
    && (t.waiters != [] ==> t.waiters[0].n > |t.buffer|)
  }

  /** One read more. */
  lemma {:induction false} WantedFront(ws: seq<Waiter>, k: nat)
    requires 0 < k <= |ws|
    ensures Wanted(ws, k) == ws[0].n + Wanted(ws[1..], k - 1)
    decreases k
  {
    if k > 1 {
      WantedFront(ws, k - 1);
    }
  }

  lemma {:induction false} Serves(s: Socket) returns (k: nat)
    ensures Answered(s.buffer, s.log, s.waiters, k, Serve(s))
    ensures Serve(s).fatal == s.fatal && Serve(s).listening == s.listening
    decreases |s.waiters|
  {
    hide Answered;
    if s.waiters != [] && |s.buffer| >= s.waiters[0].n {
      var u := Deliver(s.(waiters := s.waiters[1..]), s.waiters[0].id, s.waiters[0].n);
      k := Serves(u);
      ServedFront(s.buffer, s.log, s.waiters, k, Serve(u));
      k := k + 1;
    } else {
      k := 0;
      ServedNone(s);
    }
  }

  lemma ServedNone(s: Socket)
    requires s.waiters != [] ==> |s.buffer| < s.waiters[0].n
    ensures Answered(s.buffer, s.log, s.waiters, 0, s)
  {
  }

  lemma ServedFront(b: Bytes, log: seq<Outcome>, ws: seq<Waiter>, k: nat, t: Socket)
    requires ws != [] && |b| >= ws[0].n
    requires Answered(b[ws[0].n..], log + [Block(ws[0].id, b[..ws[0].n])], ws[1..], k, t)
    ensures Answered(b, log, ws, k + 1, t)
  {
    hide AllGet, Wanted;
    var n, more := ws[0].n, log + [Block(ws[0].id, b[..ws[0].n])];
    RoomFor(ws, k, t.log, |log| + 1, b[n..]);
    WantedFront(ws, k + 1);
    assert t.log[..|log|] == t.log[..|more|][..|log|] == log;
    assert t.log[|log|] == t.log[..|more|][|log|];
    GetsFront(t.log, |log|, ws, k, b);
    assert ws[1..][k..] == ws[k + 1..];
    assert b[n..][Wanted(ws[1..], k)..] == b[Wanted(ws, k + 1)..];
  }

  lemma RoomFor(ws: seq<Waiter>, k: nat, log: seq<Outcome>, at: nat, b: Bytes)
    requires ws != [] && AllGet(log, at, ws[1..], k, b)
    ensures k + 1 <= |ws|
  {
  }

  lemma GetsFront(log: seq<Outcome>, at: nat, ws: seq<Waiter>, k: nat, b: Bytes)
    requires ws != [] && ws[0].n <= |b| && at < |log| && log[at] == Block(ws[0].id, b[..ws[0].n])
    requires AllGet(log, at + 1, ws[1..], k, b[ws[0].n..])
    ensures AllGet(log, at, ws, k + 1, b)
  {
    hide Wanted;
    var rest, n := ws[1..], ws[0].n;
    NothingWanted(ws);
    forall i | 0 <= i < k + 1
      ensures Gets(log[at + i], ws[i].id, b, Wanted(ws, i), ws[i].n)
    {
      if i > 0 {
        WantedFront(ws, i);
        var j := i - 1;
        assert Gets(log[at + 1 + j], rest[j].id, b[n..], Wanted(rest, j), rest[j].n);
        Shifted(b, n, Wanted(rest, j), rest[j].n);
      }
    }
  }

  lemma NothingWanted(ws: seq<Waiter>)
    ensures Wanted(ws, 0) == 0
  {
  }

  lemma Shifted(b: Bytes, n: nat, from: nat, m: nat)
    requires n + from + m <= |b|
    ensures b[n..][from..from + m] == b[n + from..n + from + m]
  {
    var x, y := b[n..][from..from + m], b[n + from..n + from + m];
    assert |x| == |y| && forall i :: 0 <= i < |x| ==> x[i] == y[i];
  }

  /** A chunk that arrives answers as many waiting reads, from the front, as it can. */
  lemma DataAnswers(s: Socket, chunk: Bytes) returns (k: nat)
    requires s.listening
    ensures var t := Step(s, DataEvent(chunk));
            Answered(s.buffer + chunk, s.log, s.waiters, k, t) && t.fatal == s.fatal && t.listening
  {
    hide Serve, Answered;
    k := Serves(s.(buffer := s.buffer + chunk, received := s.received + chunk));
  }

  /** A read is refused on a dead socket, answered from the buffer when that holds enough, and waits otherwise. */
  ghost predicate ReadAnswer(s: Socket, id: nat, n: nat, t: Socket) {
    var b := if s.listening then s.buffer else [];
    var ws := if s.listening then s.waiters else [];
    && t.fatal == s.fatal && (!s.fatal ==> t.listening)
    && if s.fatal then t.log == s.log + [Refused(id)] && t.waiters == s.waiters && t.buffer == s.buffer
       else if |b| >= n then t.log == s.log + [Block(id, b[..n])] && t.waiters == ws && t.buffer == b[n..]
       else t.log == s.log && t.waiters == ws + [Waiter(id, n)] && t.buffer == b
  }

  /** When the reader ends, every waiting read is rejected, in order, but the one whose timer fired comes last. */
  ghost predicate Ends(s: Socket, ws: seq<Waiter>, last: seq<Outcome>, t: Socket) {
    && !t.listening && t.waiters == [] && t.buffer == []
    && |t.log| == |s.log| + |ws| + |last| && t.log[..|s.log|] == s.log && t.log[|s.log| + |ws|..] == last
    && forall i :: 0 <= i < |ws| ==> t.log[|s.log| + i] == Rejected(ws[i].id)
  }

  /** The waiting reads but for the first with that id. */
  ghost predicate Others(ws: seq<Waiter>, id: nat, others: seq<Waiter>) {
    exists i :: 0 <= i < |ws| && ws[i].id == id && others == ws[..i] + ws[i + 1..]
                && forall j :: 0 <= j < i ==> ws[j].id != id
  }

  lemma {:induction false} FirstWaiter(ws: seq<Waiter>, id: nat)
    ensures forall j :: 0 <= j < IndexOfWaiter(ws, id) ==> ws[j].id != id
  {
    if ws != [] && ws[0].id != id {
      FirstWaiter(ws[1..], id);
      assert forall j :: 0 < j < |ws| ==> ws[1..][j - 1] == ws[j];
    }
  }

  /** A read, from every state that is reached. */
  lemma ReadAnswers(s: Socket, id: nat, n: nat)
    requires Conserves(s)
    ensures ReadAnswer(s, id, n, Step(s, ReadEvent(id, n)))
  {
  }

  lemma CleanupEnds(s: Socket)
    ensures var t := Cleanup(s); Ends(s, s.waiters, [], t) && t.fatal == s.fatal
  {
    var t := Cleanup(s);
    assert t.log[|s.log| + |s.waiters|..] == [];
  }

  /** A socket that closes or fails rejects every read. */
  lemma CloseAnswers(s: Socket)
    ensures var t := Step(s, CloseEvent); Ends(s, s.waiters, [], t) && t.fatal == s.fatal
    ensures var t := Step(s, FatalEvent); Ends(s, s.waiters, [], t) && t.fatal
  {
    hide Cleanup, Ends;
    CleanupEnds(s);
    CleanupEnds(s.(fatal := true));
    SameEnds(s, s.(fatal := true), s.waiters, [], Step(s, FatalEvent));
  }

  lemma SameEnds(s: Socket, u: Socket, ws: seq<Waiter>, last: seq<Outcome>, t: Socket)
    requires Ends(u, ws, last, t) && u.log == s.log
    ensures Ends(s, ws, last, t)
  {
  }

  /** A read that times out takes the socket with it; the timer of a read that has ended does nothing. */
  lemma TimeoutAnswers(s: Socket, id: nat) returns (others: seq<Waiter>)
    ensures var t := Step(s, TimeoutEvent(id));
            if exists w :: w in s.waiters && w.id == id then
              t.fatal && Others(s.waiters, id, others) && Ends(s, others, [Rejected(id)], t)
            else t == s
  {
    FirstWaiter(s.waiters, id);
    var i := IndexOfWaiter(s.waiters, id);
    others := [];
    if i >= 0 {
      others := s.waiters[..i] + s.waiters[i + 1..];
      assert s.waiters[i] in s.waiters;
      TimeoutEnds(s, id, others, Timeout(s, id));
    }
  }

  lemma TimeoutEnds(s: Socket, id: nat, others: seq<Waiter>, t: Socket)
    requires t.log == s.log + RejectAll(others) + [Rejected(id)]
    requires !t.listening && t.waiters == [] && t.buffer == []
    ensures Ends(s, others, [Rejected(id)], t)
  {
    assert t.log[|s.log| + |others|..] == [Rejected(id)];
  }
}
