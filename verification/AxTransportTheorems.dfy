/** What the accessibility transport keeps over every interleaving of its steps. */
module AxTransportTheorems {
  import opened Wrappers
  import opened AxTransportSpec

  // ----- replies -----

  predicate StrictlyIncreasing(used: seq<nat>) {
    forall i, j :: 0 <= i < j < |used| ==> used[i] < used[j]
  }

  /** Message ids count up; no two messages share one. */
  predicate FreshIds(s: State) {
    && StrictlyIncreasing(s.used) && (forall i :: 0 <= i < |s.used| ==> s.used[i] < s.nextMessageId)
    && (forall r :: r in s.ids ==> s.ids[r] < s.nextMessageId)
    && (forall r, q :: r in s.ids && q in s.ids && r != q ==> s.ids[r] != s.ids[q])
  }

  predicate Registered(s: State, r: Req) {
    r in s.ids && s.ids[r] in s.pending && s.pending[s.ids[r]] == r
  }

  /** Every request that got an id is pending under that id or has its outcome, never both. */
  predicate Accounted(s: State) {
    && (s.closed ==> s.pending == map[])
    && (forall id :: id in s.pending ==> Registered(s, s.pending[id]) && s.ids[s.pending[id]] == id)
    && (forall r :: r in s.ids ==> (r in s.outcomes <==> !Registered(s, r)))
  }

  ghost predicate ReplyArrived(s: State, id: nat, value: Payload) {
    exists i :: 0 <= i < |s.messages| && s.messages[i].conversationIndex == 1
                && s.messages[i].identifier == id && s.messages[i].value == value
  }

  /** A reply outcome comes from a frame with the request's own id. */
  ghost predicate Backed(s: State) {
    forall r :: r in s.outcomes && s.outcomes[r].Reply? ==>
      r in s.ids && s.outcomes[r].identifier == s.ids[r] && ReplyArrived(s, s.ids[r], s.outcomes[r].value)
  }

  lemma ArrivedGrows(s: State, t: State, id: nat, value: Payload)
    requires s.messages <= t.messages && ReplyArrived(s, id, value)
    ensures ReplyArrived(t, id, value)
  {
    var i :| 0 <= i < |s.messages| && s.messages[i].conversationIndex == 1
             && s.messages[i].identifier == id && s.messages[i].value == value;
    assert t.messages[i] == s.messages[i];
  }

  /** Outcomes that are not replies need no backing, and old ones keep theirs. */
  lemma BackedStep(s: State, t: State)
    requires Backed(s) && s.messages <= t.messages
    requires forall r :: r in s.ids ==> r in t.ids && t.ids[r] == s.ids[r]
    requires forall r :: r in t.outcomes && t.outcomes[r].Reply? ==> r in s.outcomes && s.outcomes[r] == t.outcomes[r]
    ensures Backed(t)
  {
    hide ReplyArrived;
    forall r | r in t.outcomes && t.outcomes[r].Reply?
      ensures ReplyArrived(t, t.ids[r], t.outcomes[r].value)
    {
      ArrivedGrows(s, t, s.ids[r], s.outcomes[r].value);
    }
  }

  lemma OneMoreId(used: seq<nat>, next: nat)
    requires StrictlyIncreasing(used) && forall i :: 0 <= i < |used| ==> used[i] < next
    ensures StrictlyIncreasing(used + [next]) && forall i :: 0 <= i < |used + [next]| ==> (used + [next])[i] < next + 1
  {
  }

  lemma InvokeFresh(s: State, r: Req, written: bool)
    requires FreshIds(s)
    ensures FreshIds(OnInvoke(s, r, written))
  {
    hide StrictlyIncreasing;
    OneMoreId(s.used, s.nextMessageId);
  }

  lemma OnewayFresh(s: State)
    requires FreshIds(s)
    ensures FreshIds(OnOneway(s))
  {
    hide StrictlyIncreasing;
    OneMoreId(s.used, s.nextMessageId);
  }

  lemma InvokeAccounted(s: State, r: Req, written: bool)
    requires FreshIds(s) && Accounted(s)
    ensures Accounted(OnInvoke(s, r, written))
  {
    hide StrictlyIncreasing, Registered;
    var t := OnInvoke(s, r, written);
    RegisteredAfter(s, r, written);
  }

  /** An invocation registers at most itself. */
  lemma RegisteredAfter(s: State, r: Req, written: bool)
    requires FreshIds(s) && Accounted(s)
    ensures var t := OnInvoke(s, r, written);
            && (forall q :: q != r ==> (Registered(t, q) <==> Registered(s, q)))
            && (Registered(t, r) <==> Registered(s, r) || (t.nextMessageId != s.nextMessageId && written))
    ensures forall q :: Registered(s, q) ==> q in s.ids && s.ids[q] in s.pending && s.pending[s.ids[q]] == q
  {
    hide StrictlyIncreasing;
  }

  lemma InvokeBacked(s: State, r: Req, written: bool)
    requires Backed(s)
    ensures Backed(OnInvoke(s, r, written))
  {
    hide Backed;
    BackedStep(s, OnInvoke(s, r, written));
  }

  /** Taking a registered request out and giving it its outcome. */
  lemma SettleAccounted(s: State, r: Req, o: Outcome)
    requires FreshIds(s) && Accounted(s) && Registered(s, r)
    ensures Accounted(s.(pending := s.pending - {s.ids[r]}, outcomes := s.outcomes[r := o]))
  {
    var t := s.(pending := s.pending - {s.ids[r]}, outcomes := s.outcomes[r := o]);
    forall q | q in t.ids
      ensures q in t.outcomes <==> !Registered(t, q)
    {
      if q != r {
        assert Registered(t, q) <==> Registered(s, q);
      }
    }
    forall id | id in t.pending
      ensures Registered(t, t.pending[id]) && t.ids[t.pending[id]] == id
    {
      assert Registered(s, s.pending[id]);
    }
  }

  /** Recording a frame changes neither. */
  lemma RecordReplies(s: State, t: State)
    requires FreshIds(s) && Accounted(s) && t.closed == s.closed && t.pending == s.pending && t.outcomes == s.outcomes
    requires t.ids == s.ids && t.used == s.used && t.nextMessageId == s.nextMessageId
    ensures FreshIds(t) && Accounted(t)
  {
    assert forall r :: Registered(t, r) <==> Registered(s, r);
  }

  lemma TimeoutAccounted(s: State, r: Req)
    requires FreshIds(s) && Accounted(s)
    ensures Accounted(OnReplyTimeout(s, r))
  {
    if r in s.ids && r !in s.outcomes {
      SettleAccounted(s, r, TimedOut);
    }
  }

  lemma ReplyFrameAccounted(s: State, m: Inbound)
    requires FreshIds(s) && Accounted(s)
    ensures Accounted(OnReplyFrame(s, m))
  {
    hide Accounted, FreshIds;
    var u := s.(messages := s.messages + [m]);
    RecordReplies(s, u);
    if m.identifier in s.pending {
      PendingRegistered(s, m.identifier);
      SettleAccounted(u, s.pending[m.identifier], Reply(m.identifier, m.value));
    }
  }

  lemma PendingRegistered(s: State, id: nat)
    requires Accounted(s) && id in s.pending
    ensures Registered(s, s.pending[id]) && s.ids[s.pending[id]] == id
  {
  }

  lemma ReplyFrameBacked(s: State, m: Inbound)
    requires Accounted(s) && Backed(s) && m.conversationIndex == 1
    ensures Backed(OnReplyFrame(s, m))
  {
    hide Accounted, Backed, ReplyArrived;
    var u := s.(messages := s.messages + [m]);
    BackedStep(s, u);
    NowArrived(s, u, m);
    if m.identifier in s.pending {
      PendingRegistered(s, m.identifier);
      OneMoreBacked(u, s.pending[m.identifier], u.pending - {m.identifier}, Reply(m.identifier, m.value));
    }
  }

  lemma OneMoreBacked(s: State, r: Req, pending: map<nat, Req>, o: Outcome)
    requires Backed(s) && o.Reply? && r in s.ids && o.identifier == s.ids[r] && ReplyArrived(s, s.ids[r], o.value)
    ensures Backed(s.(pending := pending, outcomes := s.outcomes[r := o]))
  {
    hide ReplyArrived;
    var t := s.(pending := pending, outcomes := s.outcomes[r := o]);
    SameReplies(s, t);
  }

  lemma SameReplies(s: State, t: State)
    requires t.messages == s.messages
    ensures forall id, value :: ReplyArrived(t, id, value) <==> ReplyArrived(s, id, value)
  {
  }

  lemma NowArrived(s: State, t: State, m: Inbound)
    requires m.conversationIndex == 1 && t.messages == s.messages + [m]
    ensures ReplyArrived(t, m.identifier, m.value)
  {
    assert t.messages[|s.messages|] == m;
  }

  lemma CloseAccounted(s: State)
    requires Accounted(s)
    ensures Accounted(OnClose(s))
  {
    hide AllWaiting;
    if !s.closed {
      var t := OnClose(s);
      forall r | r in t.ids
        ensures r in t.outcomes
      {
        if Registered(s, r) {
          assert r in s.pending.Values;
        }
      }
    }
  }

  lemma CloseBacked(s: State)
    requires Backed(s)
    ensures Backed(OnClose(s))
  {
    hide AllWaiting, Backed;
    BackedStep(s, OnClose(s));
  }

  ghost predicate Replies(s: State) {
    FreshIds(s) && Accounted(s) && Backed(s)
  }

  /** Steps that do not touch the reply side. */
  lemma OtherReplies(s: State, t: State)
    requires Replies(s) && t.closed == s.closed && t.pending == s.pending && t.outcomes == s.outcomes
    requires t.ids == s.ids && t.used == s.used && t.nextMessageId == s.nextMessageId && s.messages <= t.messages
    ensures Replies(t)
  {
    hide FreshIds, Accounted, Backed;
    RecordReplies(s, t);
    BackedStep(s, t);
  }

  lemma OnewayReplies(s: State)
    requires Replies(s)
    ensures Replies(OnOneway(s))
  {
    hide FreshIds, Backed;
    OnewayFresh(s);
    BackedStep(s, OnOneway(s));
    assert forall r :: Registered(OnOneway(s), r) <==> Registered(s, r);
  }

  lemma TimeoutReplies(s: State, r: Req)
    requires Replies(s)
    ensures Replies(OnReplyTimeout(s, r))
  {
    hide Accounted, Backed;
    TimeoutAccounted(s, r);
    BackedStep(s, OnReplyTimeout(s, r));
  }

  lemma ReplyFrameReplies(s: State, m: Inbound)
    requires Replies(s) && m.conversationIndex == 1
    ensures Replies(OnReplyFrame(s, m))
  {
    hide Accounted, Backed, FreshIds;
    ReplyFrameAccounted(s, m);
    ReplyFrameBacked(s, m);
    SameFresh(s, OnReplyFrame(s, m));
  }

  lemma SameFresh(s: State, t: State)
    requires FreshIds(s) && t.ids == s.ids && t.used == s.used && t.nextMessageId == s.nextMessageId
    ensures FreshIds(t)
  {
  }

  lemma CallFrameReplies(s: State, m: Inbound)
    requires Replies(s)
    ensures Replies(OnCallFrame(s, m))
  {
    hide Replies, OnCallFrame;
    CallFrameSide(s, m);
    OtherReplies(s, OnCallFrame(s, m));
  }

  lemma CallFrameSide(s: State, m: Inbound)
    ensures var t := OnCallFrame(s, m);
            && t.closed == s.closed && t.pending == s.pending && t.outcomes == s.outcomes
            && t.ids == s.ids && t.used == s.used && t.nextMessageId == s.nextMessageId && s.messages <= t.messages
  {
    var u := s.(messages := s.messages + [m]);
    assert s.messages <= u.messages;
  }

  lemma CloseReplies(s: State)
    requires Replies(s)
    ensures Replies(OnClose(s))
  {
    hide Accounted, Backed, SettleSet, AllWaiting;
    CloseAccounted(s);
    CloseBacked(s);
  }

  lemma StepReplies(s: State, e: Event)
    requires Replies(s)
    ensures Replies(Step(s, e))
  {
    hide FreshIds, Accounted, Backed, OnInvoke, OnOneway, OnReplyTimeout, OnReplyFrame, OnCallFrame, OnClose, WaitersOf;
    match e
    case Invoke(r, written) =>
      InvokeFresh(s, r, written);
      InvokeAccounted(s, r, written);
      InvokeBacked(s, r, written);
    case InvokeOneway => OnewayReplies(s);
    case ReplyTimeout(r) => TimeoutReplies(s, r);
    case Dispatch(m) =>
      if m.conversationIndex == 1 {
        ReplyFrameReplies(s, m);
      } else {
        CallFrameReplies(s, m);
      }
    case WaitForInbound(w, selector) => WaitSide(s, w, selector); OtherReplies(s, OnWait(s, w, selector));
    case WaitTimeout(w) => WaitSide(s, w, NO_SELECTOR); OtherReplies(s, OnWaitTimeout(s, w));
    case Close => CloseReplies(s);
  }

  lemma WaitSide(s: State, w: Wait, selector: Selector)
    ensures var t := OnWait(s, w, selector);
            t == s.(waiters := t.waiters, waitOutcomes := t.waitOutcomes, selectors := t.selectors)
    ensures var t := OnWaitTimeout(s, w);
            t == s.(waiters := t.waiters, waitOutcomes := t.waitOutcomes, selectors := t.selectors)
  {
    hide WaitersOf, Without;
  }

  /**
   * In every reachable state: message ids are never reused, each invocation is pending or has exactly
   * one outcome, a reply outcome comes from a frame with its own id, and nothing is pending once closed.
   */
  lemma {:induction false} AlwaysReplies(es: seq<Event>)
    ensures Replies(Run(INITIAL, es))
  {
    hide Step;
    if es != [] {
      AlwaysReplies(es[..|es| - 1]);
      StepReplies(Run(INITIAL, es[..|es| - 1]), es[|es| - 1]);
    }
  }

  /** An outcome, once there, never changes. */
  lemma StepKeepsOutcomes(s: State, e: Event, r: Req)
    requires Accounted(s) && r in s.outcomes
    ensures r in Step(s, e).outcomes && Step(s, e).outcomes[r] == s.outcomes[r]
  {
    hide OnWait, OnWaitTimeout, OnClose, OnDispatch;
    match e
    case Dispatch(m) => DispatchKeeps(s, m, r);
    case Close => CloseKeeps(s, r);
    case WaitForInbound(w, selector) => WaitSide(s, w, selector);
    case WaitTimeout(w) => WaitSide(s, w, NO_SELECTOR);
    case _ =>
  }

  lemma DispatchKeeps(s: State, m: Inbound, r: Req)
    requires Accounted(s) && r in s.outcomes
    ensures r in OnDispatch(s, m).outcomes && OnDispatch(s, m).outcomes[r] == s.outcomes[r]
  {
    hide SettleSet, WaitersOf, Accounted;
    if m.identifier in s.pending {
      PendingRegistered(s, m.identifier);
      PendingHasNone(s, s.pending[m.identifier]);
    }
  }

  lemma PendingHasNone(s: State, r: Req)
    requires Accounted(s) && Registered(s, r)
    ensures r !in s.outcomes
  {
  }

  lemma CloseKeeps(s: State, r: Req)
    requires Accounted(s) && r in s.outcomes
    ensures r in OnClose(s).outcomes && OnClose(s).outcomes[r] == s.outcomes[r]
  {
    hide AllWaiting;
    assert forall id :: id in s.pending ==> Registered(s, s.pending[id]);
  }

  lemma {:induction false} OutcomesAreFinal(s: State, es: seq<Event>, r: Req)
    requires Replies(s) && r in s.outcomes
    ensures Replies(Run(s, es)) && r in Run(s, es).outcomes && Run(s, es).outcomes[r] == s.outcomes[r]
  {
    hide Step, FreshIds, Accounted, Backed;
    if es != [] {
      OutcomesAreFinal(s, es[..|es| - 1], r);
      StepReplies(Run(s, es[..|es| - 1]), es[|es| - 1]);
      StepKeepsOutcomes(Run(s, es[..|es| - 1]), es[|es| - 1], r);
    }
  }

  // ----- inbound calls -----

  predicate Distinct(ws: seq<Wait>) {
    forall i, j :: 0 <= i < j < |ws| ==> ws[i] != ws[j]
  }

  /** A list of waits for selector `k`: distinct, registered for `k`, without outcome. */
  predicate WaitList(s: State, k: Selector, ws: seq<Wait>) {
    Distinct(ws) && forall w :: w in ws ==> w in s.selectors && s.selectors[w] == k && w !in s.waitOutcomes
  }

  ghost predicate CallArrived(s: State, selector: Selector, args: Payload) {
    exists i :: 0 <= i < |s.messages| && s.messages[i].conversationIndex != 1
                && s.messages[i].selector == selector && s.messages[i].args == args
  }

  /** Every wait is kept under its own selector, once, or has its outcome. */
  predicate Listed(s: State) {
    && (s.closed ==> s.waiters == map[])
    && (forall k :: k in s.waiters ==> WaitList(s, k, s.waiters[k]))
    && (forall w :: w in s.selectors && w !in s.waitOutcomes ==> w in WaitersOf(s, s.selectors[w]))
  }

  /** A call outcome comes from an inbound frame with the wait's selector. */
  ghost predicate CallsArrived(s: State) {
    forall w :: w in s.waitOutcomes && s.waitOutcomes[w].Called? ==>
      w in s.selectors && s.waitOutcomes[w].selector == s.selectors[w]
          && CallArrived(s, s.selectors[w], s.waitOutcomes[w].args)
  }

  ghost predicate Waits(s: State) {
    Listed(s) && CallsArrived(s)
  }

  /** A list stays good when no selector changes and none of its waits is settled. */
  lemma ListKeeps(s: State, t: State, k: Selector, ws: seq<Wait>)
    requires WaitList(s, k, ws)
    requires forall w :: w in s.selectors ==> w in t.selectors && t.selectors[w] == s.selectors[w]
    requires forall w :: w in ws ==> w !in t.waitOutcomes
    ensures WaitList(t, k, ws)
  {
  }

  /** A wait on one list is on no other. */
  lemma ListsApart(s: State, k: Selector, ws: seq<Wait>, w: Wait)
    requires WaitList(s, k, ws) && w in ws
    ensures w in s.selectors && s.selectors[w] == k && w !in s.waitOutcomes
  {
  }

  lemma CallGrows(s: State, t: State, selector: Selector, args: Payload)
    requires s.messages <= t.messages && CallArrived(s, selector, args)
    ensures CallArrived(t, selector, args)
  {
    var i :| 0 <= i < |s.messages| && s.messages[i].conversationIndex != 1
             && s.messages[i].selector == selector && s.messages[i].args == args;
    assert t.messages[i] == s.messages[i];
  }

  lemma {:induction false} WithoutElements(ws: seq<Wait>, w: Wait)
    requires Distinct(ws)
    ensures forall x :: x in Without(ws, w) <==> x in ws && x != w
    ensures Distinct(Without(ws, w))
  {
    if ws != [] {
      WithoutElements(ws[1..], w);
      assert forall x :: x in ws <==> x == ws[0] || x in ws[1..];
      if ws[0] != w {
        var rest := Without(ws[1..], w);
        assert ws[0] !in ws[1..];
        assert ws[0] !in rest;
        assert forall x :: x in [ws[0]] + rest <==> x == ws[0] || x in rest;
        DistinctFront(ws[0], rest);
      }
    }
  }

  lemma DistinctFront(w: Wait, rest: seq<Wait>)
    requires Distinct(rest) && w !in rest
    ensures Distinct([w] + rest)
  {
  }

  lemma WaitListed(s: State, w: Wait, selector: Selector)
    requires Listed(s)
    ensures Listed(OnWait(s, w, selector))
  {
    hide WaitList;
    var t := OnWait(s, w, selector);
    forall k | k in t.waiters
      ensures WaitList(t, k, t.waiters[k])
    {
      if k in s.waiters {
        ListUnsettled(s, t, k, s.waiters[k], w);
      }
      if t != s && !s.closed && k == selector {
        ListMore(s, t, selector, WaitersOf(s, selector), w);
      }
    }
  }

  /** A wait without a selector yet is on no list. */
  lemma ListUnsettled(s: State, t: State, k: Selector, ws: seq<Wait>, w: Wait)
    requires WaitList(s, k, ws) && (t == s || w !in s.selectors)
    requires t.selectors == s.selectors || (w in t.selectors && t.selectors == s.selectors[w := t.selectors[w]])
    requires t.waitOutcomes == s.waitOutcomes || t.waitOutcomes == s.waitOutcomes[w := WaitClosed]
    ensures WaitList(t, k, ws)
  {
  }

  lemma ListMore(s: State, t: State, k: Selector, ws: seq<Wait>, w: Wait)
    requires (ws == [] || WaitList(s, k, ws)) && w !in s.selectors && w !in s.waitOutcomes
    requires t.selectors == s.selectors[w := k] && t.waitOutcomes == s.waitOutcomes
    ensures WaitList(t, k, ws + [w])
  {
  }

  lemma WaitWaits(s: State, w: Wait, selector: Selector)
    requires Waits(s)
    ensures Waits(OnWait(s, w, selector))
  {
    hide CallArrived, Listed, WaitersOf;
    var t := OnWait(s, w, selector);
    SameCalls(s, t);
    WaitListed(s, w, selector);
  }

  /** The same frames arrived. */
  lemma SameCalls(s: State, t: State)
    requires t.messages == s.messages
    ensures forall k, args :: CallArrived(t, k, args) <==> CallArrived(s, k, args)
  {
  }

  lemma TimeoutListed(s: State, w: Wait)
    requires Listed(s) && w in s.selectors && w !in s.waitOutcomes
    ensures Listed(OnWaitTimeout(s, w))
  {
    var t := OnWaitTimeout(s, w);
    var selector := s.selectors[w];
    var ws := WaitersOf(s, selector);
    assert w in ws && WaitList(s, selector, ws);
    WithoutElements(ws, w);
    hide WaitList, Without, Distinct;
    forall k | k in t.waiters
      ensures WaitList(t, k, t.waiters[k])
    {
      if k == selector {
        ListLess(s, t, k, ws, Without(ws, w), w);
      } else {
        assert WaitList(s, k, s.waiters[k]);
        NotOnOther(s, k, s.waiters[k], w);
        ListKeeps(s, t, k, s.waiters[k]);
      }
    }
  }

  lemma NotOnOther(s: State, k: Selector, ws: seq<Wait>, w: Wait)
    requires WaitList(s, k, ws) && w in s.selectors && s.selectors[w] != k
    ensures forall x :: x in ws ==> x != w && x !in s.waitOutcomes
  {
  }

  lemma ListLess(s: State, t: State, k: Selector, ws: seq<Wait>, rest: seq<Wait>, w: Wait)
    requires WaitList(s, k, ws) && Distinct(rest) && forall x :: x in rest <==> x in ws && x != w
    requires t.selectors == s.selectors && t.waitOutcomes == s.waitOutcomes[w := WaitTimedOut]
    ensures WaitList(t, k, rest)
  {
  }

  lemma WaitTimeoutWaits(s: State, w: Wait)
    requires Waits(s)
    ensures Waits(OnWaitTimeout(s, w))
  {
    hide CallArrived, Listed, WaitersOf, Without;
    SameCalls(s, OnWaitTimeout(s, w));
    if w in s.selectors && w !in s.waitOutcomes {
      TimeoutListed(s, w);
    }
  }

  lemma CallFrameWaits(s: State, m: Inbound)
    requires Waits(s) && m.conversationIndex != 1
    ensures Waits(OnCallFrame(s, m))
  {
    hide Listed, CallsArrived;
    CallFrameListed(s, m);
    CallFrameArrived(s, m);
  }

  lemma CallFrameArrived(s: State, m: Inbound)
    requires Waits(s) && m.conversationIndex != 1
    ensures CallsArrived(OnCallFrame(s, m))
  {
    hide CallArrived, WaitList;
    var t := OnCallFrame(s, m);
    NowCalled(s, t, m);
    var ws := WaitersOf(s, m.selector);
    forall w | w in t.waitOutcomes && t.waitOutcomes[w].Called?
      ensures w in t.selectors && t.waitOutcomes[w].selector == t.selectors[w]
      ensures CallArrived(t, t.selectors[w], t.waitOutcomes[w].args)
    {
      if w in ws && m.selector != NO_SELECTOR {
        ListsApart(s, m.selector, ws, w);
      } else {
        CallGrows(s, t, s.selectors[w], s.waitOutcomes[w].args);
      }
    }
  }

  lemma CallFrameListed(s: State, m: Inbound)
    requires Listed(s)
    ensures Listed(OnCallFrame(s, m))
  {
    hide WaitList;
    var t := OnCallFrame(s, m);
    var ws := WaitersOf(s, m.selector);
    forall k | k in t.waiters
      ensures WaitList(t, k, t.waiters[k])
    {
      if t.waiters == s.waiters {
        UnsettledList(s, k, s.waiters[k]);
        ListKeeps(s, t, k, s.waiters[k]);
      } else if k == m.selector {
        EmptyList(t, k);
      } else {
        DisjointLists(s, k, s.waiters[k], m.selector, ws);
        ListKeeps(s, t, k, s.waiters[k]);
      }
    }
  }

  lemma EmptyList(s: State, k: Selector)
    ensures WaitList(s, k, [])
  {
  }

  lemma UnsettledList(s: State, k: Selector, ws: seq<Wait>)
    requires WaitList(s, k, ws)
    ensures forall w :: w in ws ==> w !in s.waitOutcomes
  {
  }

  lemma DisjointLists(s: State, k: Selector, ws: seq<Wait>, j: Selector, us: seq<Wait>)
    requires WaitList(s, k, ws) && WaitList(s, j, us) && j != k
    ensures forall w :: w in ws ==> w !in us && w !in s.waitOutcomes
  {
  }

  lemma NowCalled(s: State, t: State, m: Inbound)
    requires m.conversationIndex != 1 && t.messages == s.messages + [m]
    ensures CallArrived(t, m.selector, m.args)
  {
    assert t.messages[|s.messages|] == m;
  }

  lemma CloseWaits(s: State)
    requires Waits(s)
    ensures Waits(OnClose(s))
  {
    hide CallArrived, WaitList;
    SameCalls(s, OnClose(s));
  }

  lemma InvokeWaits(s: State, t: State)
    requires Waits(s) && t.closed == s.closed && t.waiters == s.waiters && t.waitOutcomes == s.waitOutcomes
    requires t.selectors == s.selectors && s.messages <= t.messages
    ensures Waits(t)
  {
    hide CallArrived, WaitList;
    forall k | k in t.waiters
      ensures WaitList(t, k, t.waiters[k])
    {
      UnsettledList(s, k, s.waiters[k]);
      ListKeeps(s, t, k, s.waiters[k]);
    }
    forall w | w in t.waitOutcomes && t.waitOutcomes[w].Called?
      ensures CallArrived(t, t.selectors[w], t.waitOutcomes[w].args)
    {
      CallGrows(s, t, s.selectors[w], s.waitOutcomes[w].args);
    }
  }

  lemma StepWaits(s: State, e: Event)
    requires Waits(s)
    ensures Waits(Step(s, e))
  {
    hide Waits, OnCallFrame, OnReplyFrame, OnReplyTimeout, OnWait, OnWaitTimeout, OnClose, OnInvoke;
    match e
    case Dispatch(m) =>
      if m.conversationIndex == 1 {
        ReplyFrameSide(s, m);
        InvokeWaits(s, OnReplyFrame(s, m));
      } else {
        CallFrameWaits(s, m);
      }
    case WaitForInbound(w, selector) => WaitWaits(s, w, selector);
    case WaitTimeout(w) => WaitTimeoutWaits(s, w);
    case Close => CloseWaits(s);
    case Invoke(r, written) => InvokeSide(s, r, written); InvokeWaits(s, OnInvoke(s, r, written));
    case InvokeOneway => InvokeWaits(s, OnOneway(s));
    case ReplyTimeout(r) => TimeoutSide(s, r); InvokeWaits(s, OnReplyTimeout(s, r));
  }

  lemma TimeoutSide(s: State, r: Req)
    ensures var t := OnReplyTimeout(s, r); t == s.(pending := t.pending, outcomes := t.outcomes)
  {
  }

  lemma ReplyFrameSide(s: State, m: Inbound)
    ensures var t := OnReplyFrame(s, m);
            t == s.(pending := t.pending, outcomes := t.outcomes, messages := t.messages) && s.messages <= t.messages
  {
  }

  lemma InvokeSide(s: State, r: Req, written: bool)
    ensures var t := OnInvoke(s, r, written);
            t == s.(pending := t.pending, outcomes := t.outcomes, ids := t.ids, used := t.used,
                    nextMessageId := t.nextMessageId)
  {
  }

  /**
   * In every reachable state: each inbound wait is registered under its selector or has exactly one
   * outcome, a call outcome comes from an inbound frame with that selector, and nothing waits once closed.
   */
  lemma {:induction false} AlwaysWaits(es: seq<Event>)
    ensures Waits(Run(INITIAL, es))
  {
    hide Step;
    if es != [] {
      AlwaysWaits(es[..|es| - 1]);
      StepWaits(Run(INITIAL, es[..|es| - 1]), es[|es| - 1]);
    }
  }

  // ----- after closing -----

  /** Every request that was invoked during `es`. */
  predicate Invoked(es: seq<Event>, r: Req) {
    exists i :: 0 <= i < |es| && es[i].Invoke? && es[i].r == r
  }

  predicate Awaited(es: seq<Event>, w: Wait) {
    exists i :: 0 <= i < |es| && es[i].WaitForInbound? && es[i].w == w
  }

  /** Nothing is registered, and nobody ever registered lacks an outcome. */
  predicate Finished(s: State) {
    && s.closed && s.pending == map[] && s.waiters == map[]
    && (forall r :: r in s.ids ==> r in s.outcomes)
    && (forall w :: w in s.selectors ==> w in s.waitOutcomes)
  }

  lemma ClosedIsFinished(s: State)
    requires s.closed && Replies(s) && Waits(s)
    ensures Finished(s)
  {
    forall r | r in s.ids
      ensures r in s.outcomes
    {
      assert !Registered(s, r);
    }
  }

  /** From `s` to `t` nothing was registered; exactly the invocations and waits of `es` were added, all refused. */
  ghost predicate Refused(s: State, t: State, es: seq<Event>) {
    && t.ids == s.ids && t.selectors == s.selectors
    && (forall r :: r in t.outcomes <==> r in s.outcomes || Invoked(es, r))
    && (forall r :: r in t.outcomes ==> t.outcomes[r] == if r in s.outcomes then s.outcomes[r] else ConnectionClosed)
    && (forall w :: w in t.waitOutcomes <==> w in s.waitOutcomes || Awaited(es, w))
    && (forall w :: w in t.waitOutcomes ==> t.waitOutcomes[w] == if w in s.waitOutcomes then s.waitOutcomes[w]
        else WaitClosed)
  }

  lemma FinishedStep(s: State, e: Event)
    requires Finished(s)
    ensures Finished(Step(s, e)) && Step(s, e).ids == s.ids && Step(s, e).selectors == s.selectors
    ensures Step(s, e).outcomes ==
            if e.Invoke? && e.r !in s.outcomes then s.outcomes[e.r := ConnectionClosed] else s.outcomes
    ensures Step(s, e).waitOutcomes ==
            if e.WaitForInbound? && e.w !in s.waitOutcomes then s.waitOutcomes[e.w := WaitClosed] else s.waitOutcomes
  {
    hide OnDispatch;
    if e.Dispatch? {
      FinishedDispatch(s, e.m);
    }
  }

  /** A frame that arrives after closing finds nobody. */
  lemma FinishedDispatch(s: State, m: Inbound)
    requires Finished(s)
    ensures var t := OnDispatch(s, m);
            && Finished(t) && t.ids == s.ids && t.selectors == s.selectors
            && t.outcomes == s.outcomes && t.waitOutcomes == s.waitOutcomes
  {
    hide SettleSet, Elements;
  }

  lemma OneMoreEvent(es: seq<Event>)
    requires es != []
    ensures var e := es[|es| - 1];
            && (forall r :: Invoked(es, r) <==> Invoked(es[..|es| - 1], r) || (e.Invoke? && e.r == r))
            && (forall w :: Awaited(es, w) <==> Awaited(es[..|es| - 1], w) || (e.WaitForInbound? && e.w == w))
  {
    var init := es[..|es| - 1];
    assert forall i :: 0 <= i < |init| ==> init[i] == es[i];
  }

  /**
   * Once closed, for ever: whatever happens, nothing is registered again, no outcome changes, and exactly
   * the later invocations and waits are added, each with the closing error.
   */
  lemma {:induction false} ClosedForever(s: State, es: seq<Event>)
    requires s.closed && Replies(s) && Waits(s)
    ensures Finished(Run(s, es)) && Refused(s, Run(s, es), es)
  {
    hide Step, Replies, Waits, Invoked, Awaited;
    if es == [] {
      ClosedIsFinished(s);
      NothingAsked();
    } else {
      var before := Run(s, es[..|es| - 1]);
      ClosedForever(s, es[..|es| - 1]);
      FinishedStep(before, es[|es| - 1]);
      OneMoreEvent(es);
    }
  }

  lemma NothingAsked()
    ensures forall r :: !Invoked([], r)
    ensures forall w :: !Awaited([], w)
  {
  }

  lemma {:induction false} NobodyForgotten(es: seq<Event>)
    ensures var s := Run(INITIAL, es);
            && (forall r :: Invoked(es, r) ==> r in s.ids || r in s.outcomes)
            && (forall w :: Awaited(es, w) ==> w in s.selectors || w in s.waitOutcomes)
  {
    hide Step, Invoked, Awaited;
    if es == [] {
      NothingAsked();
    } else {
      NobodyForgotten(es[..|es| - 1]);
      OneMoreEvent(es);
      StepRemembers(Run(INITIAL, es[..|es| - 1]), es[|es| - 1]);
    }
  }

  /** Whoever is known to `s` is known to `t`. */
  ghost predicate Remembers(s: State, t: State) {
    && (forall r :: r in s.ids || r in s.outcomes ==> r in t.ids || r in t.outcomes)
    && (forall w :: w in s.selectors || w in s.waitOutcomes ==> w in t.selectors || w in t.waitOutcomes)
  }

  lemma StepRemembers(s: State, e: Event)
    ensures Remembers(s, Step(s, e))
    ensures e.Invoke? ==> e.r in Step(s, e).ids || e.r in Step(s, e).outcomes
    ensures e.WaitForInbound? ==> e.w in Step(s, e).selectors || e.w in Step(s, e).waitOutcomes
  {
    hide Remembers, OnInvoke, OnOneway, OnReplyTimeout, OnDispatch, OnWait, OnWaitTimeout, OnClose;
    match e
    case Invoke(r, written) => InvokeRemembers(s, r, written);
    case InvokeOneway => TimersRemember(s, 0, 0);
    case ReplyTimeout(r) => TimersRemember(s, r, 0);
    case Dispatch(m) => DispatchRemembers(s, m);
    case WaitForInbound(w, selector) => WaitRemembers(s, w, selector);
    case WaitTimeout(w) => TimersRemember(s, 0, w);
    case Close => CloseRemembers(s);
  }

  lemma InvokeRemembers(s: State, r: Req, written: bool)
    ensures var t := OnInvoke(s, r, written); Remembers(s, t) && (r in t.ids || r in t.outcomes)
  {
  }

  lemma TimersRemember(s: State, r: Req, w: Wait)
    ensures Remembers(s, OnOneway(s)) && Remembers(s, OnReplyTimeout(s, r)) && Remembers(s, OnWaitTimeout(s, w))
  {
    hide WaitersOf, Without;
  }

  lemma DispatchRemembers(s: State, m: Inbound)
    ensures Remembers(s, OnDispatch(s, m))
  {
    hide Remembers, OnReplyFrame, OnCallFrame;
    if m.conversationIndex == 1 {
      ReplyRemembers(s, m);
    } else {
      CallRemembers(s, m);
    }
  }

  lemma ReplyRemembers(s: State, m: Inbound)
    ensures Remembers(s, OnReplyFrame(s, m))
  {
  }

  lemma CallRemembers(s: State, m: Inbound)
    ensures Remembers(s, OnCallFrame(s, m))
  {
    hide OnCallFrame;
    CallKeys(s, m);
  }

  lemma CallKeys(s: State, m: Inbound)
    ensures var t := OnCallFrame(s, m);
            && t.ids == s.ids && t.outcomes == s.outcomes && t.selectors == s.selectors
            && s.waitOutcomes.Keys <= t.waitOutcomes.Keys
  {
    hide SettleSet, WaitersOf, Elements;
    SettledKeys(s.waitOutcomes, Elements(WaitersOf(s, m.selector)), Called(m.selector, m.args));
  }

  lemma SettledKeys<K, V>(m: map<K, V>, ks: set<K>, v: V)
    ensures SettleSet(m, ks, v).Keys == m.Keys + ks
  {
  }

  lemma WaitRemembers(s: State, w: Wait, selector: Selector)
    ensures var t := OnWait(s, w, selector); Remembers(s, t) && (w in t.selectors || w in t.waitOutcomes)
  {
    hide WaitersOf;
  }

  lemma CloseRemembers(s: State)
    ensures Remembers(s, OnClose(s))
  {
    hide SettleSet, AllWaiting;
    SettledKeys(s.outcomes, s.pending.Values, ConnectionClosed);
    SettledKeys(s.waitOutcomes, AllWaiting(s.waiters), WaitClosed);
  }

  /** In every run that closes, before or after: every invocation and every wait has ended. */
  lemma EveryoneIsAnswered(es: seq<Event>)
    requires Run(INITIAL, es).closed
    ensures forall r :: Invoked(es, r) ==> r in Run(INITIAL, es).outcomes
    ensures forall w :: Awaited(es, w) ==> w in Run(INITIAL, es).waitOutcomes
  {
    hide Step, Replies, Waits, Invoked, Awaited;
    AlwaysReplies(es);
    AlwaysWaits(es);
    ClosedIsFinished(Run(INITIAL, es));
    NobodyForgotten(es);
  }
}
