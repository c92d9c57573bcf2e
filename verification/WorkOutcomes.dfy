/** What the fan-out returns is what the workers' calls gave: the outcomes of the calls of a run, and where
    they end up. */
module WorkOutcomes {
  import opened Bytes
  import opened ParallelCollect

  /** In the step from a to b, the call of worker i gives a value. */
  ghost predicate Gives(a: State, b: State, i: nat, v: Value) {
    i < |a.workers| && a.workers[i].Working? && b == a.(workers := a.workers[i := Sending(v)])
  }

  /** In the step from a to b, the call of the error's worker ends in it. */
  ghost predicate Raises(a: State, b: State, e: Error) {
    && e.worker < |a.workers| && a.workers[e.worker].Working?
    && b == a.(workers := a.workers[e.worker := Reporting(e)])
  }

  ghost predicate GaveAt(run: seq<State>, k: nat, i: nat, v: Value) {
    k + 1 < |run| && Gives(run[k], run[k + 1], i, v)
  }

  /** Some step before the n-th state gives the value. */
  ghost predicate GaveBefore(run: seq<State>, n: nat, i: nat, v: Value) {
    exists k: nat :: k < n && GaveAt(run, k, i, v)
  }

  ghost predicate RaisedAt(run: seq<State>, k: nat, e: Error) {
    k + 1 < |run| && Raises(run[k], run[k + 1], e)
  }

  // ---------------------------------------------------------------------- values

  ghost predicate HasValue(s: State, i: nat, v: Value) {
    i < |s.workers| && (s.workers[i] == Sending(v) || s.workers[i] == Sent(v))
  }

  lemma WorkerKeepsValue(a: State, j: nat, b: State, i: nat, v: Value)
    requires j < |a.workers| && WorkerStep(a, j, b)
    ensures HasValue(b, i, v) <==> HasValue(a, i, v) || Gives(a, b, i, v)
  {}

  lemma OtherKeepsValue(a: State, b: State, i: nat, v: Value)
    requires CollectorStep(a, b) || b == a.(parentCancelled := true)
    ensures HasValue(b, i, v) <==> HasValue(a, i, v)
    ensures !Gives(a, b, i, v)
  {
    if i < |a.workers| && a.workers[i].Working? {
      assert b.workers[i].Working?;
    }
  }

  lemma ValueStep(a: State, b: State, i: nat, v: Value)
    requires Step(a, b)
    ensures HasValue(b, i, v) <==> HasValue(a, i, v) || Gives(a, b, i, v)
  {
    hide WorkerStep, CollectorStep, HasValue, Gives;
    if j :| 0 <= j < |a.workers| && WorkerStep(a, j, b) {
      WorkerKeepsValue(a, j, b, i, v);
    } else {
      OtherKeepsValue(a, b, i, v);
    }
  }

  lemma {:induction false} ValueHistory(run: seq<State>, n: nat, i: nat, v: Value)
    requires IsRun(run) && n < |run|
    ensures HasValue(run[n], i, v) <==> GaveBefore(run, n, i, v)
  {
    hide HasValue, Gives, Step;
    if n == 0 {
      NothingAtFirst(run[0], i, v);
    } else {
      ValueHistory(run, n - 1, i, v);
      assert Step(run[n - 1], run[n - 1 + 1]);
      ValueStep(run[n - 1], run[n], i, v);
      assert GaveAt(run, n - 1, i, v) <==> Gives(run[n - 1], run[n], i, v);
    }
  }

  lemma NothingAtFirst(s: State, i: nat, v: Value)
    requires Init(s)
    ensures !HasValue(s, i, v) && forall e :: !HasError(s, e)
  {}

  lemma {:induction false} OutputsByWorker(workers: seq<Worker>)
    requires forall i :: 0 <= i < |workers| ==> workers[i].Sent?
    ensures |Outputs(workers)| == |workers|
    ensures forall i :: 0 <= i < |workers| ==> Outputs(workers)[i] == workers[i].value
  {
    if workers != [] {
      var n := |workers| - 1;
      var front := workers[..n];
      assert forall i :: 0 <= i < n ==> front[i] == workers[i];
      OutputsByWorker(front);
      assert workers[n].Sent?;
      assert Outputs(workers) == Outputs(front) + [workers[n].value];
      forall i | 0 <= i < |workers| ensures Outputs(workers)[i] == workers[i].value {
        if i < n {
          assert Outputs(front)[i] == front[i].value;
        }
      }
    }
  }

  /** In every run, what is returned without error is a permutation of one value for each worker, the one
      that its call gave at an earlier step. */
  lemma ResultsWereGiven(run: seq<State>, n: nat) returns (given: seq<Value>)
    requires IsRun(run) && n < |run| && run[n].collector == ReturnedAll
    ensures |given| == |run[n].workers| && multiset(Values(run[n].results)) == multiset(given)
    ensures forall i: nat | i < |given| :: GaveBefore(run, n, i, given[i])
  {
    hide IsRun, GaveBefore, Values;
    AllResultsOrError(run, n);
    given := Outputs(run[n].workers);
    OutputsByWorker(run[n].workers);
    hide Outputs;
    forall i: nat | i < |given| ensures GaveBefore(run, n, i, given[i]) {
      assert HasValue(run[n], i, given[i]);
      ValueHistory(run, n, i, given[i]);
    }
  }

  // ----------------------------------------------------------------------- errors

  ghost predicate HasError(s: State, e: Error) {
    || s.errChan == Some(e) || s.collector == ReturnedError(e)
    || exists i :: IsReporting(s, i, e)
  }

  ghost predicate IsReporting(s: State, i: nat, e: Error) { i < |s.workers| && s.workers[i] == Reporting(e) }

  lemma WorkerErrors(a: State, j: nat, b: State, i: nat, e: Error)
    requires j < |a.workers| && WorkerStep(a, j, b)
    ensures b.errChan == Some(e) ==> a.errChan == Some(e) || IsReporting(a, j, e)
    ensures b.collector == a.collector
    ensures IsReporting(b, i, e) ==> IsReporting(a, i, e) || Raises(a, b, e)
  {}

  lemma CollectorErrors(a: State, b: State, i: nat, e: Error)
    requires CollectorStep(a, b) || b == a.(parentCancelled := true)
    ensures b.errChan == Some(e) || b.collector == ReturnedError(e) ==>
              a.errChan == Some(e) || a.collector == ReturnedError(e)
    ensures IsReporting(b, i, e) ==> IsReporting(a, i, e)
  {}

  lemma ErrorStep(a: State, b: State, e: Error)
    requires Step(a, b) && HasError(b, e)
    ensures HasError(a, e) || Raises(a, b, e)
  {
    hide WorkerStep, CollectorStep, IsReporting, Raises;
    if j :| 0 <= j < |a.workers| && WorkerStep(a, j, b) {
      WorkerErrors(a, j, b, j, e);
      if i :| IsReporting(b, i, e) {
        WorkerErrors(a, j, b, i, e);
      }
    } else {
      CollectorErrors(a, b, 0, e);
      if i :| IsReporting(b, i, e) {
        CollectorErrors(a, b, i, e);
      }
    }
  }

  lemma {:induction false} ErrorHistory(run: seq<State>, n: nat, e: Error)
    requires IsRun(run) && n < |run| && HasError(run[n], e)
    ensures exists k: nat :: k < n && RaisedAt(run, k, e)
  {
    hide HasError, Raises, Step;
    if n == 0 {
      NothingAtFirst(run[0], 0, 0);
    } else {
      assert Step(run[n - 1], run[n - 1 + 1]);
      ErrorStep(run[n - 1], run[n], e);
      assert RaisedAt(run, n - 1, e) <==> Raises(run[n - 1], run[n], e);
      if HasError(run[n - 1], e) {
        ErrorHistory(run, n - 1, e);
      }
    }
  }

  /** What an error says about the moment it was raised. */
  lemma RaisedTruthfully(a: State, b: State, e: Error)
    requires Step(a, b) && Raises(a, b, e)
    ensures e.internal == a.cancelled && e.live == (!a.cancelled && !a.parentCancelled)
  {
    hide CollectorStep;
    var i := e.worker;
    assert b.workers[i] == Reporting(e) && a.workers[i].Working?;
    if CollectorStep(a, b) {
      CollectorMovesNoWorker(a, b);
    } else if j :| 0 <= j < |a.workers| && WorkerStep(a, j, b) {
      if j != i {
        WorkerMovesItself(a, j, b, i);
      }
    }
  }

  /** In every run, a returned error is one in which a worker's call ended at an earlier step, when the call
      had not been cancelled from inside; and if the parent is not cancelled, no cancellation at all had
      happened then. */
  lemma ErrorWasRaised(run: seq<State>, n: nat) returns (k: nat)
    requires IsRun(run) && n < |run| && run[n].collector.ReturnedError?
    ensures k < n && RaisedAt(run, k, run[n].collector.error)
    ensures !run[k].cancelled && (!run[n].parentCancelled ==> !run[k].parentCancelled)
  {
    hide HasError, Raises, Step;
    var e := run[n].collector.error;
    assert HasError(run[n], e) by { ReturnedIsHeld(run[n]); }
    ErrorHistory(run, n, e);
    k :| k < n && RaisedAt(run, k, e);
    assert Step(run[k], run[k + 1]);
    RaisedTruthfully(run[k], run[k + 1], e);
    RootCauseIsReturned(run, n);
  }

  lemma ReturnedIsHeld(s: State)
    requires s.collector.ReturnedError?
    ensures HasError(s, s.collector.error)
  {}
}
