/** When a reset of the AFC demultiplexer can cost a later request its answer. */
module AfcResetTheorems {
  import opened Wrappers
  import opened AfcDemuxSpec
  import opened T = AfcDemuxTheorems
  import P = AfcPackets

  /** Every open request is in the map of pending numbers, under its own number. */
  predicate Registered(s: State) {
    forall r :: r in s.phases && Open(s.phases[r]) ==>
      var num := NumOf(s.phases[r]);
      num in s.pending && s.pending[num] == r
  }

  predicate NoReset(es: seq<Event>) {
    forall e :: e in es ==> !e.Reset?
  }

  /** Whatever happens before the next reset, no open request is lost. */
  ghost predicate NeverLoses(s: State) {
    forall es: seq<Event> :: NoReset(es) ==> Registered(Run(s, es))
  }

  /** Nothing in flight, nothing stopped, and the timer of `stale` is armed with a number still to come. */
  predicate Ready(s: State, stale: Req, num: nat) {
    && s.lock == None && !s.stopped && s.pending == map[] && s.packetNum <= num
    && stale in s.timers && s.timers[stale] == num
  }

  /** `q` is being written under the number after `s`. */
  predicate Acquired(s: State, t: State, q: Req, stale: Req) {
    && q in t.phases && t.phases[q].Writing? && t.phases[q].promise.Unsettled? && t.phases[q].num == s.packetNum
    && t.pending == map[s.packetNum := q] && t.packetNum == s.packetNum + 1 && t.lock == Some(q) && !t.stopped
    && stale in t.timers && stale in s.timers && t.timers[stale] == s.timers[stale]
  }

  /** There is always another request number. */
  lemma {:induction false} Fresh(used: set<Req>) returns (q: Req)
    ensures q !in used && forall r :: r in used ==> r < q
    decreases |used|
  {
    if used == {} {
      q := 0;
    } else {
      var r: Req :| r in used;
      q := Fresh(used - {r});
      q := if q <= r then r + 1 else q;
      assert forall p :: p in used ==> p == r || p in used - {r};
    }
  }

  lemma After(base: State, es: seq<Event>, s: State, e: Event)
    requires NoReset(es) && s == Run(base, es) && !e.Reset?
    ensures NoReset(es + [e]) && Run(base, es + [e]) == Step(s, e)
  {
    hide Step;
    RunMore(base, es, e);
  }

  lemma CallAnother(s: State, q: Req, packet: P.Packet, stale: Req, num: nat)
    requires Ready(s, stale, num) && q !in s.phases
    ensures var t := Step(s, Call(q, packet));
            Ready(t, stale, num) && t.packetNum == s.packetNum && q in t.phases && t.phases[q] == WantSocket
  {
  }

  lemma GiveSocket(s: State, q: Req, sock: Sock, stale: Req, num: nat)
    requires Ready(s, stale, num) && q in s.phases && s.phases[q] == WantSocket
    ensures var t := Step(s, GotSocket(q, sock));
            Ready(t, stale, num) && t.packetNum == s.packetNum && q in t.phases && t.phases[q] == Queued(sock)
  {
  }

  lemma GiveLock(s: State, q: Req, stale: Req, num: nat)
    requires Ready(s, stale, num) && q != stale && q in s.phases && s.phases[q].Queued?
    ensures Acquired(s, Step(s, Acquire(q)), q, stale)
  {
  }

  /** A request nobody has made yet takes the next number. */
  lemma SendAnother(base: State, es: seq<Event>, sock: Sock, packet: P.Packet, stale: Req, num: nat)
    returns (fs: seq<Event>, q: Req)
    requires NoReset(es) && Ready(Run(base, es), stale, num)
    ensures NoReset(fs) && q != stale && Acquired(Run(base, es), Run(base, fs), q, stale)
  {
    hide Step, Ready, Acquired, Run;
    var s := Run(base, es);
    q := Fresh(s.phases.Keys + {stale});
    CallAnother(s, q, packet, stale, num);
    After(base, es, s, Call(q, packet));
    var s1, es1 := Step(s, Call(q, packet)), es + [Call(q, packet)];
    GiveSocket(s1, q, sock, stale, num);
    After(base, es1, s1, GotSocket(q, sock));
    var s2, es2 := Step(s1, GotSocket(q, sock)), es1 + [GotSocket(q, sock)];
    GiveLock(s2, q, stale, num);
    After(base, es2, s2, Acquire(q));
    fs := es2 + [Acquire(q)];
    SameNumber(s, s2, Run(base, fs), q, stale, num);
  }

  lemma SameNumber(s: State, s2: State, t: State, q: Req, stale: Req, num: nat)
    requires Ready(s, stale, num) && Ready(s2, stale, num) && s2.packetNum == s.packetNum && Acquired(s2, t, q, stale)
    ensures Acquired(s, t, q, stale)
  {
  }

  lemma FailAnother(s: State, t: State, q: Req, stale: Req, num: nat)
    requires Ready(s, stale, num) && s.packetNum < num && Acquired(s, t, q, stale)
    ensures Ready(Step(t, WriteFail(q)), stale, num) && Step(t, WriteFail(q)).packetNum == s.packetNum + 1
  {
  }

  /** Requests whose writes fail use up the numbers before the stale timer's. */
  lemma {:induction false} UseUpNumbers(base: State, es: seq<Event>, sock: Sock, packet: P.Packet, stale: Req, num: nat)
    returns (fs: seq<Event>)
    requires NoReset(es) && Ready(Run(base, es), stale, num)
    ensures NoReset(fs) && Ready(Run(base, fs), stale, num) && Run(base, fs).packetNum == num
    decreases num - Run(base, es).packetNum
  {
    hide Step, Acquired, Run;
    fs := es;
    if Run(base, es).packetNum < num {
      var q;
      fs, q := SendAnother(base, es, sock, packet, stale, num);
      FailAnother(Run(base, es), Run(base, fs), q, stale, num);
      After(base, fs, Run(base, fs), WriteFail(q));
      fs := UseUpNumbers(base, fs + [WriteFail(q)], sock, packet, stale, num);
    }
  }

  /** The stale timer fires while another request is open under its number. */
  lemma StaleTimerHits(s: State, t: State, q: Req, stale: Req, num: nat)
    requires Ready(s, stale, num) && s.packetNum == num && q != stale && Acquired(s, t, q, stale)
    ensures !Registered(Step(t, Timeout(stale)))
  {
    hide Registered;
    var u := Step(t, Timeout(stale));
    assert u.phases[q] == t.phases[q] && u.pending == t.pending - {num};
    NotRegistered(u, q);
  }

  lemma NotRegistered(s: State, q: Req)
    requires q in s.phases && Open(s.phases[q]) && NumOf(s.phases[q]) !in s.pending
    ensures !Registered(s)
  {
  }

  /** From such a state one run without a reset loses a request. */
  lemma ReadyLoses(base: State, es: seq<Event>, sock: Sock, packet: P.Packet, stale: Req, num: nat)
    returns (fs: seq<Event>)
    requires NoReset(es) && Ready(Run(base, es), stale, num)
    ensures NoReset(fs) && !Registered(Run(base, fs))
  {
    hide Step, Acquired, Run, Registered;
    var gs := UseUpNumbers(base, es, sock, packet, stale, num);
    var q;
    fs, q := SendAnother(base, gs, sock, packet, stale, num);
    StaleTimerHits(Run(base, gs), Run(base, fs), q, stale, num);
    After(base, fs, Run(base, fs), Timeout(stale));
    fs := fs + [Timeout(stale)];
  }

  /** After a reset the lock is free, or its holder is still writing and already rejected. */
  lemma HolderAfterReset(s: State)
    requires Exclusive(s) && Live(s)
    ensures var t := OnReset(s);
            && !t.stopped && t.pending == map[] && t.packetNum == 0 && t.timers == s.timers - s.pending.Values
            && (t.lock.Some? ==> t.lock.value in t.phases && t.phases[t.lock.value].Writing?)
  {
    var t := OnReset(s);
    if s.lock.Some? {
      var r := s.lock.value;
      assert Open(s.phases[r]) ==> r in s.pending.Values by {
        assert Open(s.phases[r]) ==> s.pending[NumOf(s.phases[r])] == r;
      }
    }
  }

  /** The holder's write fails. */
  lemma FreeLock(t: State, stale: Req)
    requires t.lock.Some? && t.lock.value in t.phases && t.phases[t.lock.value].Writing?
    requires !t.stopped && t.pending == map[] && t.packetNum == 0 && stale in t.timers
    ensures Ready(Step(t, WriteFail(t.lock.value)), stale, t.timers[stale])
  {
  }

  lemma StaleTimerLoses(s: State, stale: Req, sock: Sock, packet: P.Packet) returns (es: seq<Event>)
    requires Exclusive(s) && Live(s) && stale in s.timers && stale !in s.pending.Values
    ensures NoReset(es) && !Registered(Run(OnReset(s), es))
  {
    hide Step, Run, OnReset, Live, Exclusive, Registered;
    var t := OnReset(s);
    HolderAfterReset(s);
    Nothing(t);
    es := [];
    if t.lock.Some? {
      FreeLock(t, stale);
      After(t, es, t, WriteFail(t.lock.value));
      es := es + [WriteFail(t.lock.value)];
    }
    es := ReadyLoses(t, es, sock, packet, stale, t.timers[stale]);
  }

  lemma Nothing(s: State)
    ensures Run(s, []) == s
  {
  }

  /**
   * After a reset no request is lost before the next one if and only if every armed timer belongs to a
   * request that was registered at the reset; timers of failed writes are the others.
   */
  lemma NoRequestLostExactlyWhen(s: State)
    requires Exclusive(s) && Live(s)
    ensures NeverLoses(OnReset(s)) <==> s.timers.Keys <= s.pending.Values
  {
    hide Run, OnReset, Registered, Exclusive;
    if s.timers.Keys <= s.pending.Values {
      forall es: seq<Event> | NoReset(es)
        ensures Registered(Run(OnReset(s), es))
      {
        hide Live;
        ResetLiveExactlyWhen(s);
        ResetExclusive(s);
        NoRequestLost(OnReset(s), es);
        LiveRegistered(Run(OnReset(s), es));
      }
    } else {
      var stale :| stale in s.timers && stale !in s.pending.Values;
      var replacement: Sock := Fresh(set i | 0 <= i < |s.sent| :: s.sent[i].sock);
      var es := StaleTimerLoses(s, stale, replacement, P.Packet(0, [], []));
    }
  }

  lemma ResetExclusive(s: State)
    requires Exclusive(s)
    ensures Exclusive(OnReset(s))
  {
    EndExclusive(s);
  }

  lemma LiveRegistered(s: State)
    requires Live(s)
    ensures Registered(s)
  {
  }
}
