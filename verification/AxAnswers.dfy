/** Who is answered when, told from the list of events alone, and that the transport answers just so. */
module AxAnswers {
  import opened Wrappers
  import opened AxTransportSpec
  import opened AxTransportTheorems

  // ----- told from the events -----

  predicate ClosedIn(es: seq<Event>) {
    exists i :: 0 <= i < |es| && es[i].Close?
  }

  /** How a step changes the answer of invocation `r`, given what it has before the step. */
  function Answer(e: Event, r: Req, closed: bool, id: Option<nat>, answer: Option<Outcome>): Option<Outcome> {
    if answer.Some? then answer
    else if id.Some? then
      match e
      case Dispatch(m) =>
        if m.conversationIndex == 1 && m.identifier == id.value then Some(Reply(id.value, m.value)) else None
      case ReplyTimeout(q) => if q == r then Some(TimedOut) else None
      case Close => Some(ConnectionClosed)
      case _ => None
    else if !e.Invoke? || e.r != r then None
    else if closed then Some(ConnectionClosed)
    else if !e.written then Some(WriteFailed)
    else None
  }

  /** Every message that is sent takes the next id; an invocation after closing sends none. */
  predicate Sends(e: Event, closed: bool, known: bool) {
    e.InvokeOneway? || (e.Invoke? && !closed && !known)
  }

  /** The invocation was made before. */
  predicate KnownIn(es: seq<Event>, e: Event)
    decreases |es|, 1
  {
    e.Invoke? && (IdIn(es, e.r).Some? || OutcomeIn(es, e.r).Some?)
  }

  function SentIn(es: seq<Event>): nat
    decreases |es|, 0
  {
    if es == [] then 0
    else
      var init, e := es[..|es| - 1], es[|es| - 1];
      SentIn(init) + if Sends(e, ClosedIn(init), KnownIn(init, e)) then 1 else 0
  }

  /** The id of invocation `r`: one more than the messages sent before it. */
  function IdIn(es: seq<Event>, r: Req): Option<nat>
    decreases |es|, 0
  {
    if es == [] then None
    else
      var init, e := es[..|es| - 1], es[|es| - 1];
      if IdIn(init, r).Some? then IdIn(init, r)
      else if e.Invoke? && e.r == r && !ClosedIn(init) && OutcomeIn(init, r).None? then Some(1 + SentIn(init))
      else None
  }

  function OutcomeIn(es: seq<Event>, r: Req): Option<Outcome>
    decreases |es|, 0
  {
    if es == [] then None
    else
      var init := es[..|es| - 1];
      Answer(es[|es| - 1], r, ClosedIn(init), IdIn(init, r), OutcomeIn(init, r))
  }

  /** How a step changes the answer of wait `w`. */
  function WaitAnswer(e: Event, w: Wait, closed: bool, selector: Option<Selector>, answer: Option<WaitOutcome>)
    : Option<WaitOutcome>
  {
    if answer.Some? then answer
    else if selector.Some? then
      match e
      case Dispatch(m) =>
        if m.conversationIndex != 1 && m.selector == selector.value && m.selector != 0 then
          Some(Called(m.selector, m.args))
        else None
      case WaitTimeout(v) => if v == w then Some(WaitTimedOut) else None
      case Close => Some(WaitClosed)
      case _ => None
    else if e.WaitForInbound? && e.w == w && closed then Some(WaitClosed)
    else None
  }

  function SelectorIn(es: seq<Event>, w: Wait): Option<Selector> {
    if es == [] then None
    else
      var init, e := es[..|es| - 1], es[|es| - 1];
      if SelectorIn(init, w).Some? then SelectorIn(init, w)
      else if e.WaitForInbound? && e.w == w && !ClosedIn(init) then Some(e.selector)
      else None
  }

  function WaitOutcomeIn(es: seq<Event>, w: Wait): Option<WaitOutcome> {
    if es == [] then None
    else
      var init := es[..|es| - 1];
      WaitAnswer(es[|es| - 1], w, ClosedIn(init), SelectorIn(init, w), WaitOutcomeIn(init, w))
  }

  // ----- told from the state -----

  function At<K, V>(m: map<K, V>, k: K): (v: Option<V>)
    ensures v.Some? <==> k in m
  {
    if k in m then Some(m[k]) else None
  }

  lemma ClosedStep(s: State, e: Event)
    ensures Step(s, e).closed <==> s.closed || e.Close?
  {
    hide OnInvoke, OnReplyTimeout, OnReplyFrame, OnCallFrame, OnWait, OnWaitTimeout, SettleSet, AllWaiting;
    match e
    case Invoke(r, written) => InvokeSide(s, r, written);
    case ReplyTimeout(r) => TimeoutSide(s, r);
    case Dispatch(m) => ReplyFrameSide(s, m); CallFrameSide(s, m);
    case WaitForInbound(w, selector) => WaitSide(s, w, selector);
    case WaitTimeout(w) => WaitSide(s, w, NO_SELECTOR);
    case _ =>
  }

  lemma MoreClosed(es: seq<Event>)
    requires es != []
    ensures ClosedIn(es) <==> ClosedIn(es[..|es| - 1]) || es[|es| - 1].Close?
  {
    var init := es[..|es| - 1];
    assert forall i :: 0 <= i < |init| ==> init[i] == es[i];
  }

  /** The request registered under an id is the one that got it. */
  lemma PendingIs(s: State, id: nat, r: Req)
    requires Replies(s)
    ensures id in s.pending && s.pending[id] == r <==> r in s.ids && s.ids[r] == id && r !in s.outcomes
  {
    hide Backed, StrictlyIncreasing;
    if id in s.pending {
      assert Registered(s, s.pending[id]);
    }
  }

  lemma ReplyFrameAnswers(s: State, m: Inbound, r: Req)
    requires Replies(s) && m.conversationIndex == 1
    ensures var t := OnReplyFrame(s, m);
            && t.ids == s.ids && t.nextMessageId == s.nextMessageId
            && At(t.outcomes, r) == Answer(Dispatch(m), r, s.closed, At(s.ids, r), At(s.outcomes, r))
  {
    hide Replies;
    PendingIs(s, m.identifier, r);
    if m.identifier in s.pending {
      PendingIs(s, m.identifier, s.pending[m.identifier]);
    }
  }

  lemma CloseAnswers(s: State, r: Req)
    requires Replies(s)
    ensures var t := OnClose(s);
            && t.ids == s.ids && t.nextMessageId == s.nextMessageId
            && At(t.outcomes, r) == Answer(Close, r, s.closed, At(s.ids, r), At(s.outcomes, r))
  {
    hide Replies, AllWaiting;
    if r in s.ids {
      PendingIs(s, s.ids[r], r);
    }
    if r in s.pending.Values {
      var id :| id in s.pending && s.pending[id] == r;
      PendingIs(s, id, r);
    }
    if s.closed {
      NothingPending(s);
    }
  }

  lemma NothingPending(s: State)
    requires Replies(s) && s.closed
    ensures s.pending == map[]
  {
  }

  lemma InvokeAnswers(s: State, q: Req, written: bool, r: Req)
    ensures var t := OnInvoke(s, q, written);
            && At(t.outcomes, r) == Answer(Invoke(q, written), r, s.closed, At(s.ids, r), At(s.outcomes, r))
            && At(t.ids, r) == (if r in s.ids then Some(s.ids[r])
                                else if q == r && !s.closed && r !in s.outcomes then Some(s.nextMessageId)
                                else None)
            && t.nextMessageId == s.nextMessageId
               + if Sends(Invoke(q, written), s.closed, q in s.ids || q in s.outcomes) then 1 else 0
  {
  }

  lemma TimeoutAnswers(s: State, q: Req, r: Req)
    ensures var t := OnReplyTimeout(s, q);
            && At(t.outcomes, r) == Answer(ReplyTimeout(q), r, s.closed, At(s.ids, r), At(s.outcomes, r))
            && t.ids == s.ids && t.nextMessageId == s.nextMessageId
  {
  }

  lemma StepAnswers(s: State, e: Event, r: Req)
    requires Replies(s)
    ensures var t := Step(s, e);
            && At(t.outcomes, r) == Answer(e, r, s.closed, At(s.ids, r), At(s.outcomes, r))
            && At(t.ids, r) == (if r in s.ids then Some(s.ids[r])
                                else if e.Invoke? && e.r == r && !s.closed && r !in s.outcomes
                                    then Some(s.nextMessageId)
                                else None)
            && t.nextMessageId == s.nextMessageId
               + if Sends(e, s.closed, e.Invoke? && (e.r in s.ids || e.r in s.outcomes)) then 1 else 0
  {
    hide Replies, OnReplyFrame, OnCallFrame, OnClose, OnWait, OnWaitTimeout, OnInvoke, OnReplyTimeout;
    match e
    case Invoke(q, written) => InvokeAnswers(s, q, written, r);
    case ReplyTimeout(q) => TimeoutAnswers(s, q, r);
    case Dispatch(m) =>
      if m.conversationIndex == 1 {
        ReplyFrameAnswers(s, m, r);
      } else {
        CallFrameSide(s, m);
      }
    case WaitForInbound(w, selector) => WaitSide(s, w, selector);
    case WaitTimeout(w) => WaitSide(s, w, NO_SELECTOR);
    case Close => CloseAnswers(s, r);
    case _ =>
  }

  /**
   * In every run, each invocation has the id and the answer that the events give it: its reply is the first
   * frame behind it with the reply flag and its own id, unless its timer or the closing came first; an
   * invocation whose write fails, or after closing, is refused at once.
   */
  lemma {:induction false} RunAnswers(es: seq<Event>, r: Req)
    ensures var s := Run(INITIAL, es);
            && s.closed == ClosedIn(es) && s.nextMessageId == 1 + SentIn(es)
            && At(s.ids, r) == IdIn(es, r) && At(s.outcomes, r) == OutcomeIn(es, r)
    decreases |es|
  {
    hide Step, Replies, ClosedIn, Answer, Sends;
    if es == [] {
      NeverClosed();
    } else {
      var init, e := es[..|es| - 1], es[|es| - 1];
      var s := Run(INITIAL, init);
      RunAnswers(init, r);
      if e.Invoke? {
        RunAnswers(init, e.r);
      }
      AlwaysReplies(init);
      StepAnswers(s, e, r);
      ClosedStep(s, e);
      MoreClosed(es);
    }
  }

  lemma NeverClosed()
    ensures !ClosedIn([])
  {
  }

  // ----- the inbound side -----

  lemma CallFrameAnswers(s: State, m: Inbound, w: Wait)
    requires Listed(s) && m.conversationIndex != 1
    ensures var t := OnCallFrame(s, m);
            && t.selectors == s.selectors
            && At(t.waitOutcomes, w) == WaitAnswer(Dispatch(m), w, s.closed, At(s.selectors, w), At(s.waitOutcomes, w))
  {
    hide WaitList;
    var ws := WaitersOf(s, m.selector);
    WaitingIs(s, m.selector, w);
  }

  /** Waiting for a selector is having it without an answer. */
  lemma WaitingIs(s: State, k: Selector, w: Wait)
    requires Listed(s)
    ensures w in WaitersOf(s, k) <==> w in s.selectors && s.selectors[w] == k && w !in s.waitOutcomes
  {
  }

  lemma CloseAnswersWaits(s: State, w: Wait)
    requires Listed(s)
    ensures var t := OnClose(s);
            && t.selectors == s.selectors
            && At(t.waitOutcomes, w) == WaitAnswer(Close, w, s.closed, At(s.selectors, w), At(s.waitOutcomes, w))
  {
    hide Listed, WaitersOf;
    if w in s.selectors {
      WaitingIs(s, s.selectors[w], w);
      InAll(s, s.selectors[w], w);
    }
    if w in AllWaiting(s.waiters) {
      var k :| k in s.waiters && w in s.waiters[k];
      InAll(s, k, w);
      WaitingIs(s, k, w);
    }
    if s.closed {
      NobodyWaits(s);
    }
  }

  lemma InAll(s: State, k: Selector, w: Wait)
    ensures w in WaitersOf(s, k) <==> k in s.waiters && w in s.waiters[k]
  {
  }

  lemma NobodyWaits(s: State)
    requires Listed(s) && s.closed
    ensures s.waiters == map[] && forall k :: WaitersOf(s, k) == []
  {
  }

  lemma WaitAnswers(s: State, v: Wait, k: Selector, w: Wait)
    ensures var t := OnWait(s, v, k);
            && At(t.waitOutcomes, w) ==
               WaitAnswer(WaitForInbound(v, k), w, s.closed, At(s.selectors, w), At(s.waitOutcomes, w))
            && At(t.selectors, w) == (if w in s.selectors then Some(s.selectors[w])
                                      else if v == w && !s.closed && w !in s.waitOutcomes then Some(k)
                                      else None)
  {
    hide WaitersOf;
  }

  lemma WaitTimeoutAnswers(s: State, v: Wait, w: Wait)
    ensures var t := OnWaitTimeout(s, v);
            && t.selectors == s.selectors
            && At(t.waitOutcomes, w) ==
               WaitAnswer(WaitTimeout(v), w, s.closed, At(s.selectors, w), At(s.waitOutcomes, w))
  {
    hide WaitersOf, Without;
  }

  lemma StepAnswersWaits(s: State, e: Event, w: Wait)
    requires Listed(s)
    ensures var t := Step(s, e);
            && At(t.waitOutcomes, w) == WaitAnswer(e, w, s.closed, At(s.selectors, w), At(s.waitOutcomes, w))
            && At(t.selectors, w) == (if w in s.selectors then Some(s.selectors[w])
                                      else if e.WaitForInbound? && e.w == w && !s.closed && w !in s.waitOutcomes then
                                        Some(e.selector)
                                      else None)
  {
    hide Listed, OnInvoke, OnReplyTimeout, OnReplyFrame, OnCallFrame, OnClose, OnWait, OnWaitTimeout;
    match e
    case WaitForInbound(v, k) => WaitAnswers(s, v, k, w);
    case WaitTimeout(v) => WaitTimeoutAnswers(s, v, w);
    case Dispatch(m) =>
      if m.conversationIndex == 1 {
        ReplyFrameSide(s, m);
      } else {
        CallFrameAnswers(s, m, w);
      }
    case Invoke(r, written) => InvokeSide(s, r, written);
    case ReplyTimeout(r) => TimeoutSide(s, r);
    case Close => CloseAnswersWaits(s, w);
    case _ =>
  }

  /** A wait without a selector has no answer but that of closing. */
  lemma {:induction false} UnknownWait(es: seq<Event>, w: Wait)
    ensures SelectorIn(es, w).None? && WaitOutcomeIn(es, w).Some? ==> ClosedIn(es)
    decreases |es|
  {
    hide ClosedIn;
    if es != [] {
      UnknownWait(es[..|es| - 1], w);
      MoreClosed(es);
    }
  }

  /**
   * In every run, each wait has the answer that the events give it: the first call frame behind it with its
   * own selector, unless its timer or the closing came first; the empty selector is never called, and a
   * wait after closing is refused at once.
   */
  lemma {:induction false} RunAnswersWaits(es: seq<Event>, w: Wait)
    ensures var s := Run(INITIAL, es);
            At(s.selectors, w) == SelectorIn(es, w) && At(s.waitOutcomes, w) == WaitOutcomeIn(es, w)
    decreases |es|
  {
    hide Step, Listed, CallsArrived, ClosedIn, WaitAnswer;
    if es != [] {
      var init, e := es[..|es| - 1], es[|es| - 1];
      RunAnswersWaits(init, w);
      RunAnswers(init, 0);
      AlwaysWaits(init);
      UnknownWait(init, w);
      StepAnswersWaits(Run(INITIAL, init), e, w);
    }
  }
}
