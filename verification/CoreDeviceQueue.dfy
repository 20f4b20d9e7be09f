/**
 * The CoreDevice invocation queue: every call awaits the promise of the call before it and installs its
 * own as the new tail; its promise is resolved when its operation ends, however it ends.
 */
module InvocationQueueSpec {

  /** The promise of caller number `caller`, or the resolved one the queue starts with. */
  datatype Promise = Initial | Of(caller: nat)

  datatype Phase = Awaiting | InProgress | Ended(ok: bool)

  datatype Caller = Caller(previous: Promise, phase: Phase)

  /** Callers in call order; `released` holds the callers whose promise is resolved, `started` those begun. */
  datatype State = State(callers: seq<Caller>, tail: Promise, released: set<nat>, started: seq<nat>)

  const INITIAL := State([], Initial, {}, [])

  datatype Event = Enqueue | Resume(i: nat) | Complete(i: nat, ok: bool)

  predicate Resolved(s: State, p: Promise) {
    p.Initial? || p.caller in s.released
  }

  predicate CanResume(s: State, i: nat) {
    i < |s.callers| && s.callers[i].phase.Awaiting? && Resolved(s, s.callers[i].previous)
  }

  function OnEnqueue(s: State): State {
    s.(callers := s.callers + [Caller(s.tail, Awaiting)], tail := Of(|s.callers|))
  }

  function OnResume(s: State, i: nat): State {
    if CanResume(s, i) then
      s.(callers := s.callers[i := s.callers[i].(phase := InProgress)], started := s.started + [i])
    else s
  }

  /** The `finally` clause releases the next caller, whether the operation returned or threw. */
  function OnComplete(s: State, i: nat, ok: bool): State {
    if i < |s.callers| && s.callers[i].phase.InProgress? then
      s.(callers := s.callers[i := s.callers[i].(phase := Ended(ok))], released := s.released + {i})
    else s
  }

  function Step(s: State, e: Event): State {
    match e
    case Enqueue => OnEnqueue(s)
    case Resume(i) => OnResume(s, i)
    case Complete(i, ok) => OnComplete(s, i, ok)
  }

  function Run(s: State, es: seq<Event>): State {
    if es == [] then s else Step(Run(s, es[..|es| - 1]), es[|es| - 1])
  }
}

module CoreDeviceQueue {
  import opened InvocationQueueSpec

  class InvocationQueue {
    var callers: seq<Caller>
    var invokeQueue: Promise
    var released: set<nat>
    ghost var started: seq<nat>

    ghost function Current(): State
      reads this
    {
      State(callers, invokeQueue, released, started)
    }

    constructor ()
      ensures Current() == INITIAL
    {
      callers, invokeQueue, released, started := [], Initial, {}, [];
    }

    /** Up to the first `await`: remember the tail, install a new one. */
    method EnqueueInvocation() returns (i: nat)
      modifies this
      ensures i == |old(callers)| && Current() == OnEnqueue(old(Current()))
    {
      var previous := invokeQueue;
      i := |callers|;
      invokeQueue := Of(i);
      callers := callers + [Caller(previous, Awaiting)];
    }

    /** The previous promise is resolved: the operation begins. */
    method BeginOperation(i: nat)
      modifies this
      ensures Current() == OnResume(old(Current()), i)
    {
      if i < |callers| && callers[i].phase.Awaiting?
         && (callers[i].previous.Initial? || callers[i].previous.caller in released) {
        callers := callers[i := callers[i].(phase := InProgress)];
        started := started + [i];
      }
    }

    method EndOperation(i: nat, ok: bool)
      modifies this
      ensures Current() == OnComplete(old(Current()), i, ok)
    {
      if i < |callers| && callers[i].phase.InProgress? {
        callers := callers[i := callers[i].(phase := Ended(ok))];
        released := released + {i};
      }
    }
  }
}
