/**
 * The accessibility audit DTX transport as a state machine: invocations, replies, inbound calls, their
 * timeouts, and closing.  `Payload` stands for decoded objects and arguments.
 */
module AxTransportSpec {
  import opened Wrappers

  type Req = nat
  type Wait = nat
  type Payload = int

  /** Selector names, interned; 0 stands for the empty one, which objects that are not strings give. */
  type Selector = nat
  const NO_SELECTOR: Selector := 0

  /** A decoded frame: its reply flag, identifier, object, selector when the object is a string, and arguments. */
  datatype Inbound = Inbound(identifier: nat, conversationIndex: nat, value: Payload, selector: Selector, args: Payload)

  datatype Outcome = Reply(identifier: nat, value: Payload) | TimedOut | WriteFailed | ConnectionClosed
  datatype WaitOutcome = Called(selector: Selector, args: Payload) | WaitTimedOut | WaitClosed

  /** `ids`, `selectors`, `used` and `messages` record which id each request got and what arrived. */
  datatype State = State(
    closed: bool, nextMessageId: nat, pending: map<nat, Req>, outcomes: map<Req, Outcome>,
    waiters: map<Selector, seq<Wait>>, waitOutcomes: map<Wait, WaitOutcome>,
    ids: map<Req, nat>, selectors: map<Wait, Selector>, used: seq<nat>, messages: seq<Inbound>)

  const INITIAL := State(false, 1, map[], map[], map[], map[], map[], map[], [], [])

  datatype Event =
    | Invoke(r: Req, written: bool)       // `written`: building and writing the frame did not throw
    | InvokeOneway
    | ReplyTimeout(r: Req)
    | Dispatch(m: Inbound)
    | WaitForInbound(w: Wait, selector: Selector)
    | WaitTimeout(w: Wait)
    | Close

  function OnInvoke(s: State, r: Req, written: bool): State {
    if r in s.ids || r in s.outcomes then s
    else if s.closed then s.(outcomes := s.outcomes[r := ConnectionClosed])
    else
      var id := s.nextMessageId;
      var t := s.(nextMessageId := id + 1, ids := s.ids[r := id], used := s.used + [id]);
      if written then t.(pending := t.pending[id := r]) else t.(outcomes := t.outcomes[r := WriteFailed])
  }

  function OnOneway(s: State): State {
    s.(nextMessageId := s.nextMessageId + 1, used := s.used + [s.nextMessageId])
  }

  /** The timer of a request is armed until its promise settles. */
  function OnReplyTimeout(s: State, r: Req): State {
    if r in s.ids && r !in s.outcomes then
      s.(pending := s.pending - {s.ids[r]}, outcomes := s.outcomes[r := TimedOut])
    else s
  }

  function WaitersOf(s: State, selector: Selector): seq<Wait> {
    if selector in s.waiters then s.waiters[selector] else []
  }

  /** Settling a set of promises with one outcome. */
  function SettleSet<K, V>(m: map<K, V>, ks: set<K>, v: V): map<K, V> {
    map k | k in m.Keys + ks :: if k in ks then v else m[k]
  }

  function Elements(ws: seq<Wait>): set<Wait> {
    set w | w in ws
  }

  function OnReplyFrame(s: State, m: Inbound): State {
    var t := s.(messages := s.messages + [m]);
    if m.identifier in s.pending then
      t.(pending := s.pending - {m.identifier},
         outcomes := s.outcomes[s.pending[m.identifier] := Reply(m.identifier, m.value)])
    else t
  }

  function OnCallFrame(s: State, m: Inbound): State {
    var t := s.(messages := s.messages + [m]);
    var ws := WaitersOf(s, m.selector);
    if m.selector == NO_SELECTOR || ws == [] then t
    else
      t.(waiters := s.waiters[m.selector := []],
         waitOutcomes := SettleSet(s.waitOutcomes, Elements(ws), Called(m.selector, m.args)))
  }

  function OnDispatch(s: State, m: Inbound): State {
    if m.conversationIndex == 1 then OnReplyFrame(s, m) else OnCallFrame(s, m)
  }

  function OnWait(s: State, w: Wait, selector: Selector): State {
    if w in s.selectors || w in s.waitOutcomes then s
    else if s.closed then s.(waitOutcomes := s.waitOutcomes[w := WaitClosed])
    else s.(waiters := s.waiters[selector := WaitersOf(s, selector) + [w]], selectors := s.selectors[w := selector])
  }

  function Without(ws: seq<Wait>, w: Wait): seq<Wait> {
    if ws == [] then [] else if ws[0] == w then ws[1..] else [ws[0]] + Without(ws[1..], w)
  }

  function OnWaitTimeout(s: State, w: Wait): State {
    if w in s.selectors && w !in s.waitOutcomes then
      var selector := s.selectors[w];
      s.(waiters := s.waiters[selector := Without(WaitersOf(s, selector), w)],
         waitOutcomes := s.waitOutcomes[w := WaitTimedOut])
    else s
  }

  /** Everyone waiting for an inbound call. */
  function AllWaiting(waiters: map<Selector, seq<Wait>>): set<Wait> {
    set k, w | k in waiters && w in waiters[k] :: w
  }

  function OnClose(s: State): State {
    if s.closed then s
    else
      s.(closed := true, pending := map[], waiters := map[],
         outcomes := SettleSet(s.outcomes, s.pending.Values, ConnectionClosed),
         waitOutcomes := SettleSet(s.waitOutcomes, AllWaiting(s.waiters), WaitClosed))
  }

  function Step(s: State, e: Event): State {
    match e
    case Invoke(r, written) => OnInvoke(s, r, written)
    case InvokeOneway => OnOneway(s)
    case ReplyTimeout(r) => OnReplyTimeout(s, r)
    case Dispatch(m) => OnDispatch(s, m)
    case WaitForInbound(w, selector) => OnWait(s, w, selector)
    case WaitTimeout(w) => OnWaitTimeout(s, w)
    case Close => OnClose(s)
  }

  function Run(s: State, es: seq<Event>): State {
    if es == [] then s else Step(Run(s, es[..|es| - 1]), es[|es| - 1])
  }
}

module AxAuditDtxTransport {
  import opened Wrappers
  import opened AxTransportSpec

  class AxAuditDtxTransport {
    var closed: bool
    var nextMessageId: nat
    var pendingReplies: map<nat, Req>
    var outcomes: map<Req, Outcome>
    var inboundWaiters: map<Selector, seq<Wait>>
    var waitOutcomes: map<Wait, WaitOutcome>
    var ids: map<Req, nat>
    var selectors: map<Wait, Selector>
    ghost var used: seq<nat>
    ghost var messages: seq<Inbound>

    ghost function Current(): State
      reads this
    {
      State(closed, nextMessageId, pendingReplies, outcomes, inboundWaiters, waitOutcomes, ids, selectors, used,
            messages)
    }

    constructor ()
      ensures Current() == INITIAL
    {
      closed, nextMessageId, pendingReplies, outcomes := false, 1, map[], map[];
      inboundWaiters, waitOutcomes, ids, selectors, used, messages := map[], map[], map[], map[], [], [];
    }

    method Invoke(r: Req, written: bool)
      modifies this
      ensures Current() == OnInvoke(old(Current()), r, written)
    {
      if r in ids || r in outcomes {
        return;
      }
      if closed {
        outcomes := outcomes[r := ConnectionClosed];
        return;
      }
      var identifier := nextMessageId;
      nextMessageId := nextMessageId + 1;
      ids := ids[r := identifier];
      used := used + [identifier];
      if written {
        pendingReplies := pendingReplies[identifier := r];
      } else {
        outcomes := outcomes[r := WriteFailed];
      }
    }

    method InvokeOneway()
      modifies this
      ensures Current() == OnOneway(old(Current()))
    {
      used := used + [nextMessageId];
      nextMessageId := nextMessageId + 1;
    }

    method ReplyTimeout(r: Req)
      modifies this
      ensures Current() == OnReplyTimeout(old(Current()), r)
    {
      if r in ids && r !in outcomes {
        pendingReplies := pendingReplies - {ids[r]};
        outcomes := outcomes[r := TimedOut];
      }
    }

    method Dispatch(m: Inbound)
      modifies this
      ensures Current() == OnDispatch(old(Current()), m)
    {
      messages := messages + [m];
      if m.conversationIndex == 1 {
        if m.identifier in pendingReplies {
          var pending := pendingReplies[m.identifier];
          pendingReplies := pendingReplies - {m.identifier};
          outcomes := outcomes[pending := Reply(m.identifier, m.value)];
        }
        return;
      }
      if m.selector != NO_SELECTOR && m.selector in inboundWaiters && inboundWaiters[m.selector] != [] {
        var waiters := inboundWaiters[m.selector];
        inboundWaiters := inboundWaiters[m.selector := []];
        waitOutcomes := ResolveEach(waitOutcomes, waiters, Called(m.selector, m.args));
      }
    }

    method WaitForInbound(w: Wait, selector: Selector)
      modifies this
      ensures Current() == OnWait(old(Current()), w, selector)
    {
      if w in selectors || w in waitOutcomes {
        return;
      }
      if closed {
        waitOutcomes := waitOutcomes[w := WaitClosed];
        return;
      }
      var waiters := if selector in inboundWaiters then inboundWaiters[selector] else [];
      inboundWaiters := inboundWaiters[selector := waiters + [w]];
      selectors := selectors[w := selector];
    }

    method WaitTimeout(w: Wait)
      modifies this
      ensures Current() == OnWaitTimeout(old(Current()), w)
    {
      if w in selectors && w !in waitOutcomes {
        var selector := selectors[w];
        var waiters := if selector in inboundWaiters then inboundWaiters[selector] else [];
        inboundWaiters := inboundWaiters[selector := Without(waiters, w)];
        waitOutcomes := waitOutcomes[w := WaitTimedOut];
      }
    }

    /** Fails every pending reply, then every inbound waiter, selector by selector. */
    method OnClose()
      modifies this
      ensures Current() == AxTransportSpec.OnClose(old(Current()))
    {
      hide SettleSet, AllWaiting;
      if closed {
        return;
      }
      closed := true;
      outcomes := RejectEach(outcomes, pendingReplies.Values, ConnectionClosed);
      pendingReplies := map[];
      waitOutcomes := RejectWaiters(waitOutcomes, inboundWaiters);
      inboundWaiters := map[];
    }
  }

  lemma SettleMore<K, V>(m: map<K, V>, a: set<K>, b: set<K>, v: V)
    ensures SettleSet(SettleSet(m, a, v), b, v) == SettleSet(m, a + b, v)
    ensures SettleSet(m, {}, v) == m
  {
  }

  lemma SettleOne<K, V>(m: map<K, V>, k: K, v: V)
    ensures SettleSet(m, {k}, v) == m[k := v]
  {
  }

  method ResolveEach(outcomes: map<Wait, WaitOutcome>, ws: seq<Wait>, o: WaitOutcome)
    returns (r: map<Wait, WaitOutcome>)
    ensures r == SettleSet(outcomes, Elements(ws), o)
  {
    hide SettleSet;
    r := outcomes;
    assert Elements(ws[..0]) == {};
    SettleMore(outcomes, {}, {}, o);
    for i := 0 to |ws|
      invariant r == SettleSet(outcomes, Elements(ws[..i]), o)
    {
      assert Elements(ws[..i + 1]) == Elements(ws[..i]) + {ws[i]};
      SettleMore(outcomes, Elements(ws[..i]), {ws[i]}, o);
      SettleOne(r, ws[i], o);
      r := r[ws[i] := o];
    }
    assert ws[..|ws|] == ws;
  }

  method RejectEach(outcomes: map<Req, Outcome>, rs: set<Req>, o: Outcome) returns (r: map<Req, Outcome>)
    ensures r == SettleSet(outcomes, rs, o)
  {
    hide SettleSet;
    var todo := rs;
    r := outcomes;
    assert rs - todo == {};
    SettleMore(outcomes, {}, {}, o);
    while todo != {}
      invariant todo <= rs
      invariant r == SettleSet(outcomes, rs - todo, o)
      decreases todo
    {
      var q :| q in todo;
      SettleMore(outcomes, rs - todo, {q}, o);
      SettleOne(r, q, o);
      assert rs - (todo - {q}) == (rs - todo) + {q};
      r := r[q := o];
      todo := todo - {q};
    }
    assert rs - todo == rs;
  }

  method RejectWaiters(outcomes: map<Wait, WaitOutcome>, waiters: map<Selector, seq<Wait>>)
    returns (r: map<Wait, WaitOutcome>)
    ensures r == SettleSet(outcomes, AllWaiting(waiters), WaitClosed)
  {
    hide SettleSet;
    var todo := waiters.Keys;
    r := outcomes;
    ghost var done: set<Wait> := {};
    SettleMore(outcomes, {}, {}, WaitClosed);
    while todo != {}
      invariant todo <= waiters.Keys
      invariant forall w :: w in done <==> exists k :: k in waiters && k !in todo && w in waiters[k]
      invariant r == SettleSet(outcomes, done, WaitClosed)
      decreases todo
    {
      var k :| k in todo;
      SettleMore(outcomes, done, Elements(waiters[k]), WaitClosed);
      r := ResolveEach(r, waiters[k], WaitClosed);
      todo := todo - {k};
      done := done + Elements(waiters[k]);
    }
    assert done == AllWaiting(waiters);
  }
}
