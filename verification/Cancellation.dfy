/** Which error a caller of the single-flight loader gets: a caller that does not give up shares the result
    of its call, and a cancellation error reaches nobody but a caller that gives up waiting because its
    own context is cancelled. */
module Cancellation {
  import opened Bytes
  import opened SingleFlight

  // ------------------------------------------------------------------ shared results

  /** A caller that did not give up has the result of the closed call it was taken from, or, without a
      call, a file that was loaded already. */
  ghost predicate Attributed(s: State, t: ThreadId)
    requires t in s.threads
  {
    var pc := s.threads[t];
    pc.Returned? && !pc.gaveUp ==>
      match pc.call
      case None => pc.err == None
      case Some(c) =>
        && c in s.calls && s.calls[c].name == pc.name && s.calls[c].done
        && s.calls[c].err == pc.err && s.calls[c].file == pc.file
  }

  lemma ClosedStays(a: State, t: ThreadId, b: State, c: CallId)
    requires Inv(a) && StepOrCancel(a, t, b) && c in a.calls && a.calls[c].done
    ensures c in b.calls && b.calls[c] == a.calls[c]
  {
    hide OneResult;
    if !Cancel(a, t, b) && t in a.threads && Leading(a.threads[t]) {
      LeaderIsGood(a, t);
    }
    hide Inv;
  }

  lemma OthersKeepResult(a: State, t: ThreadId, b: State, u: ThreadId)
    requires Inv(a) && StepOrCancel(a, t, b) && u in a.threads && Attributed(a, u)
    requires u != t || Cancel(a, t, b)
    ensures u in b.threads && Attributed(b, u)
  {
    hide Inv;
    if a.threads[u].Returned? && !a.threads[u].gaveUp && a.threads[u].call.Some? {
      ClosedStays(a, t, b, a.threads[u].call.value);
    }
  }

  lemma OwnResult(a: State, t: ThreadId, b: State)
    requires Inv(a) && Step(a, t, b)
    ensures t in b.threads && Attributed(b, t)
  {
    if t in a.threads && a.threads[t].Waiting? {
      assert GoodThread(a, t, a.threads[t]);
    } else if t in a.threads && Leading(a.threads[t]) {
      LeaderIsGood(a, t);
    }
    hide Inv, OneResult;
  }

  lemma AttributedStep(a: State, t: ThreadId, b: State, u: ThreadId)
    requires Inv(a) && StepOrCancel(a, t, b) && u in b.threads
    requires u in a.threads ==> Attributed(a, u)
    ensures Attributed(b, u)
  {
    hide Inv, Attributed;
    if u == t && Step(a, t, b) {
      OwnResult(a, t, b);
    } else {
      OthersKeepResult(a, t, b, u);
    }
  }

  /** In every run, all callers that take the result of one call are given the same file and error, those
      of its leader's parse. */
  lemma {:induction false} CallersShareResult(run: seq<State>, threads: seq<ThreadId>, n: nat, u: ThreadId)
    requires IsRun(run, threads) && n < |run| && u in run[n].threads
    ensures Attributed(run[n], u)
  {
    hide Inv, Attributed, Step, Cancel;
    assert n > 0;
    RunIsSafe(run, threads, n - 1, n - 1);
    assert StepOrCancel(run[n - 1], threads[n - 1], run[n - 1 + 1]);
    if u in run[n - 1].threads {
      CallersShareResult(run, threads, n - 1, u);
    }
    AttributedStep(run[n - 1], threads[n - 1], run[n], u);
  }

  // --------------------------------------------------------------------- cancellation

  /** In the step from a to b, thread t stops waiting because its own context is cancelled. */
  ghost predicate GivesUp(a: State, t: ThreadId, b: State) {
    && t in a.threads && a.threads[t].Waiting? && t in a.cancelled
    && var pc := a.threads[t];
       b == a.(threads := a.threads[t := Returned(pc.name, Some(pc.on), None, Some(Cancelled), true)])
  }

  ghost predicate HasGivenUp(s: State, t: ThreadId) {
    t in s.threads && s.threads[t].Returned? && s.threads[t].gaveUp
  }

  /** Calls and their leaders hold no cancellation, and callers hold one exactly if they gave up. */
  ghost predicate Clean(s: State) {
    && (forall c | c in s.calls :: s.calls[c].err != Some(Cancelled))
    && (forall t | t in s.threads :: CleanThread(s, t))
  }

  ghost predicate CleanThread(s: State, t: ThreadId)
    requires t in s.threads
  {
    var pc := s.threads[t];
    && (pc.Failing? ==> pc.error != Cancelled)
    && (pc.Returned? ==> (pc.err == Some(Cancelled) <==> pc.gaveUp) && (pc.gaveUp ==> t in s.cancelled))
  }

  lemma CleanThreadStep(a: State, t: ThreadId, b: State, u: ThreadId)
    requires Clean(a) && StepOrCancel(a, t, b) && u in b.threads
    ensures CleanThread(b, u)
  {
    assert u in a.threads ==> CleanThread(a, u);
    assert t in a.threads && Leading(a.threads[t]) && a.threads[t].own in a.calls ==>
        a.calls[a.threads[t].own].err != Some(Cancelled);
    hide Clean;
  }

  lemma CleanCallStep(a: State, t: ThreadId, b: State, c: CallId)
    requires Clean(a) && StepOrCancel(a, t, b) && c in b.calls
    ensures b.calls[c].err != Some(Cancelled)
  {
    assert t in a.threads ==> CleanThread(a, t);
    assert c in a.calls ==> a.calls[c].err != Some(Cancelled);
    hide Clean;
  }

  lemma CleanStep(a: State, t: ThreadId, b: State)
    requires Clean(a) && StepOrCancel(a, t, b)
    ensures Clean(b)
  {
    hide StepOrCancel, CleanThread;
    forall u | u in b.threads ensures CleanThread(b, u) {
      CleanThreadStep(a, t, b, u);
    }
    forall c | c in b.calls ensures b.calls[c].err != Some(Cancelled) {
      CleanCallStep(a, t, b, c);
    }
  }

  lemma GivenUpStep(a: State, t: ThreadId, b: State, u: ThreadId)
    requires StepOrCancel(a, t, b)
    ensures HasGivenUp(b, u) <==> HasGivenUp(a, u) || (t == u && GivesUp(a, u, b))
  {}

  ghost predicate GaveUpAt(run: seq<State>, threads: seq<ThreadId>, t: ThreadId, k: nat) {
    k < |threads| && k + 1 < |run| && threads[k] == t && GivesUp(run[k], t, run[k + 1])
  }

  lemma {:induction false} GivenUpHistory(run: seq<State>, threads: seq<ThreadId>, n: nat, t: ThreadId)
    requires IsRun(run, threads) && n < |run|
    ensures Clean(run[n])
    ensures HasGivenUp(run[n], t) <==> exists k: nat :: k < n && GaveUpAt(run, threads, t, k)
  {
    hide Clean, HasGivenUp, GivesUp, Step, Cancel;
    if n == 0 {
      CleanAtFirst(run[0], t);
    } else {
      GivenUpHistory(run, threads, n - 1, t);
      assert StepOrCancel(run[n - 1], threads[n - 1], run[n - 1 + 1]);
      CleanStep(run[n - 1], threads[n - 1], run[n]);
      GivenUpStep(run[n - 1], threads[n - 1], run[n], t);
      assert GaveUpAt(run, threads, t, n - 1) <==>
             threads[n - 1] == t && GivesUp(run[n - 1], t, run[n]);
    }
  }

  lemma CleanAtFirst(s: State, t: ThreadId)
    requires Init(s)
    ensures Clean(s) && !HasGivenUp(s, t)
  {}

  /** In every run, a caller gets a cancellation error exactly if it gave up waiting with its own context
      cancelled. So a caller whose context is live never gets one, whoever else is cancelled, and neither
      does a caller that parses, cancelled or not. */
  lemma OnlyOwnCancellation(run: seq<State>, threads: seq<ThreadId>, n: nat, t: ThreadId)
    requires IsRun(run, threads) && n < |run| && t in run[n].threads && run[n].threads[t].Returned?
    ensures run[n].threads[t].err == Some(Cancelled) <==> exists k: nat :: k < n && GaveUpAt(run, threads, t, k)
    ensures t !in run[n].cancelled ==> run[n].threads[t].err != Some(Cancelled)
  {
    hide IsRun, GaveUpAt;
    GivenUpHistory(run, threads, n, t);
    assert CleanThread(run[n], t);
  }
}
