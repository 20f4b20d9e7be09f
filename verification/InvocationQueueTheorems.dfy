/** Invocations are serial and in order, and a failing one releases its successor. */
module InvocationQueueTheorems {
  import opened InvocationQueueSpec

  function PromiseBefore(i: nat): Promise {
    if i == 0 then Initial else Of(i - 1)
  }

  /**
   * Operations have started in call order, all but the last of them have ended, and exactly the ended
   * ones have resolved their promise.
   */
  predicate Serial(s: State) {
    var k := |s.started|;
    && s.tail == PromiseBefore(|s.callers|)
    && k <= |s.callers|
    && (forall i :: 0 <= i < k ==> s.started[i] == i)
    && (forall i :: 0 <= i < |s.callers| ==>
          && s.callers[i].previous == PromiseBefore(i)
          && (s.callers[i].phase.Awaiting? <==> i >= k)
          && (i + 1 < k ==> s.callers[i].phase.Ended?)
          && (i in s.released <==> s.callers[i].phase.Ended?))
    && (forall i :: i in s.released ==> i < |s.callers|)
  }

  /** Nobody past the next caller can resume: the caller before it is still waiting. */
  lemma PredecessorAwaits(s: State, i: nat)
    requires Serial(s) && i < |s.callers|
    ensures i > |s.started| ==> s.callers[i - 1].phase.Awaiting? && i - 1 !in s.released
  {
  }

  lemma StepSerial(s: State, e: Event)
    requires Serial(s)
    ensures Serial(Step(s, e))
  {
    if e.Resume? && CanResume(s, e.i) {
      assert e.i == |s.started| by {
        assert s.callers[e.i].previous == PromiseBefore(e.i);
        PredecessorAwaits(s, e.i);
      }
    }
  }

  /** In every reachable state, over every interleaving of callers. */
  lemma {:induction false} AlwaysSerial(es: seq<Event>)
    ensures Serial(Run(INITIAL, es))
  {
    hide Step;
    if es != [] {
      AlwaysSerial(es[..|es| - 1]);
      StepSerial(Run(INITIAL, es[..|es| - 1]), es[|es| - 1]);
    }
  }

  /** At most one operation is in progress, and those before it have all ended. */
  lemma OneInProgress(es: seq<Event>, i: nat, j: nat)
    requires var s := Run(INITIAL, es);
             i < |s.callers| && j < |s.callers| && s.callers[i].phase.InProgress? && j != i
    ensures var s := Run(INITIAL, es); if j < i then s.callers[j].phase.Ended? else s.callers[j].phase.Awaiting?
  {
    AlwaysSerial(es);
  }

  /** The next caller can begin exactly when no operation is in progress and someone is waiting: no deadlock. */
  lemma NextCanBeginExactlyWhen(es: seq<Event>)
    ensures var s := Run(INITIAL, es);
            (exists i :: CanResume(s, i))
            <==> (forall i :: 0 <= i < |s.callers| ==> !s.callers[i].phase.InProgress?) && |s.started| < |s.callers|
  {
    var s := Run(INITIAL, es);
    AlwaysSerial(es);
    var k := |s.started|;
    if (forall i :: 0 <= i < |s.callers| ==> !s.callers[i].phase.InProgress?) && k < |s.callers| {
      assert CanResume(s, k) by {
        if k > 0 {
          assert s.callers[k - 1].phase.Ended?;
        }
      }
    }
    if i :| CanResume(s, i) {
      OnlyNext(s, i);
    }
  }

  lemma OnlyNext(s: State, i: nat)
    requires Serial(s) && CanResume(s, i)
    ensures i == |s.started| && forall j :: 0 <= j < |s.callers| ==> !s.callers[j].phase.InProgress?
  {
    assert s.callers[i].previous == PromiseBefore(i);
    if i > 0 {
      assert s.callers[i - 1].phase.Ended?;
    }
  }

  /** A failing operation releases its successor just as a succeeding one does. */
  lemma FailureReleases(es: seq<Event>, i: nat, ok: bool)
    requires var s := Run(INITIAL, es); i + 1 < |s.callers| && s.callers[i].phase.InProgress?
    ensures CanResume(Step(Run(INITIAL, es), Complete(i, ok)), i + 1)
  {
    AlwaysSerial(es);
  }
}
