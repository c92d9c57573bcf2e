/** The fan-out helper: n workers run concurrently, send a value or an error to two buffered
    channels, and a collector gathers all values or returns at the first error or cancellation. */
module ParallelCollect {
  import opened Bytes

  type Value = nat

  // live: the worker's context was not cancelled when the error was raised.
  // internal: one of the call's own cancels had already happened then.
  datatype Error = Error(worker: nat, code: nat, live: bool, internal: bool)

  datatype Worker =
    | Working
    | Sending(value: Value)      // about to send to resultsChan
    | Reporting(error: Error)    // about to try errChan
    | Cancelling                 // about to call cancel
    | Sent(value: Value)
    | Failed

  // A value in resultsChan, tagged with the worker that sent it.
  datatype Item = Item(worker: nat, value: Value)

  datatype Collector =
    | Collecting
    | ReturnedAll
    | ReturnedError(error: Error)
    | ReturnedCancelled

  datatype State = State(
    workers: seq<Worker>,
    results: seq<Item>,          // what the collector has gathered
    resultsChan: seq<Item>,      // capacity n
    errChan: Option<Error>,      // capacity 1
    cancelled: bool,             // the call's own cancel
    parentCancelled: bool,
    collector: Collector)

  ghost predicate Init(s: State) {
    && (forall i :: 0 <= i < |s.workers| ==> s.workers[i].Working?)
    && s.results == [] && s.resultsChan == [] && s.errChan == None
    && !s.cancelled && s.collector == Collecting
  }

  // ------------------------------------------------------------------- steps

  ghost function Raised(s: State, i: nat, code: nat): Error {
    Error(i, code, !s.cancelled && !s.parentCancelled, s.cancelled)
  }

  ghost predicate WorkerStep(a: State, i: nat, b: State)
    requires i < |a.workers|
  {
    match a.workers[i]
    case Working =>
      || (exists v :: b == a.(workers := a.workers[i := Sending(v)]))
      || (exists code :: b == a.(workers := a.workers[i := Reporting(Raised(a, i, code))]))
    case Sending(v) =>
      && |a.resultsChan| < |a.workers|  // a send to a full channel blocks
      && b == a.(workers := a.workers[i := Sent(v)], resultsChan := a.resultsChan + [Item(i, v)])
    case Reporting(e) =>
      b == a.(workers := a.workers[i := Cancelling], errChan := if a.errChan.None? then Some(e) else a.errChan)
    case Cancelling =>
      b == a.(workers := a.workers[i := Failed], cancelled := true)
    case _ => false
  }

  /** The collector's select: any ready case may be taken. Every return runs the deferred cancel. */
  ghost predicate CollectorStep(a: State, b: State) {
    && a.collector == Collecting
    && if |a.results| == |a.workers| then
         b == a.(collector := ReturnedAll, cancelled := true)
       else
         || (a.errChan.Some?
             && b == a.(collector := ReturnedError(a.errChan.value), errChan := None, cancelled := true))
         || (a.resultsChan != []
             && b == a.(results := a.results + [a.resultsChan[0]], resultsChan := a.resultsChan[1..]))
         || (a.parentCancelled && b == a.(collector := ReturnedCancelled, cancelled := true))
  }

  ghost predicate Step(a: State, b: State) {
    || (exists i :: 0 <= i < |a.workers| && WorkerStep(a, i, b))
    || CollectorStep(a, b)
    || b == a.(parentCancelled := true)
  }

  // --------------------------------------------------------------- invariant

  ghost predicate DistinctWorkers(items: seq<Item>) {
    forall j, k :: 0 <= j < k < |items| ==> items[j].worker != items[k].worker
  }

  /** Every value sent is gathered or in the channel, once, and nothing else is. */
  ghost predicate ItemsInv(s: State) {
    var items := s.results + s.resultsChan;
    && DistinctWorkers(items)
    && (forall j :: 0 <= j < |items| ==>
          items[j].worker < |s.workers| && s.workers[items[j].worker] == Sent(items[j].value))
    && (forall i :: 0 <= i < |s.workers| && s.workers[i].Sent? ==> Item(i, s.workers[i].value) in items)
  }

  /** While the collector runs, an error was reported before any cancel. */
  ghost predicate ErrorsInv(s: State) {
    && (s.collector == Collecting ==>
          && (s.cancelled ==> s.errChan.Some?)
          && (forall i :: 0 <= i < |s.workers| && (s.workers[i].Cancelling? || s.workers[i].Failed?) ==>
                s.errChan.Some?)
          && (s.errChan.Some? ==> Root(s, s.errChan.value)))
    && (forall i :: 0 <= i < |s.workers| && s.workers[i].Reporting? ==> GoodReport(s, s.workers[i].error))
    && (s.collector.ReturnedError? ==> Root(s, s.collector.error))
    && (s.collector == ReturnedAll ==> |s.results| == |s.workers|)
    && (s.collector == ReturnedCancelled ==> s.parentCancelled)
  }

  ghost predicate Inv(s: State) { ItemsInv(s) && ErrorsInv(s) }

  ghost predicate GoodReport(s: State, e: Error) {
    && (e.internal ==> s.cancelled)
    && (!s.parentCancelled ==> e.live == !e.internal)
  }

  /** An error raised before any of the call's own cancels, so by a worker whose context was live
      unless the parent was cancelled. */
  ghost predicate Root(s: State, e: Error) {
    !e.internal && (!s.parentCancelled ==> e.live)
  }

  lemma InitInv(s: State)
    requires Init(s)
    ensures Inv(s)
  {}

  lemma SendKeepsItems(a: State, i: nat, b: State)
    requires ItemsInv(a) && i < |a.workers| && a.workers[i].Sending? && WorkerStep(a, i, b)
    ensures ItemsInv(b)
  {
    var items := a.results + a.resultsChan;
    assert b.results + b.resultsChan == items + [Item(i, a.workers[i].value)];
    assert forall j :: 0 <= j < |items| ==> items[j].worker != i;
  }

  lemma WorkerKeepsItems(a: State, i: nat, b: State)
    requires ItemsInv(a) && i < |a.workers| && WorkerStep(a, i, b)
    ensures ItemsInv(b)
  {
    if a.workers[i].Sending? {
      SendKeepsItems(a, i, b);
    } else {
      var items := a.results + a.resultsChan;
      assert forall j :: 0 <= j < |items| ==> items[j].worker != i;
    }
  }

  lemma WorkerKeepsErrors(a: State, i: nat, b: State)
    requires ErrorsInv(a) && i < |a.workers| && WorkerStep(a, i, b)
    ensures ErrorsInv(b)
  {}

  lemma CollectorStepKeepsInv(a: State, b: State)
    requires Inv(a) && CollectorStep(a, b)
    ensures Inv(b)
  {
    assert b.results + b.resultsChan == a.results + a.resultsChan;
  }

  lemma StepKeepsInv(a: State, b: State)
    requires Inv(a) && Step(a, b)
    ensures Inv(b)
  {
    hide WorkerStep, CollectorStep;
    if i :| 0 <= i < |a.workers| && WorkerStep(a, i, b) {
      hide ItemsInv, ErrorsInv;
      WorkerKeepsItems(a, i, b);
      WorkerKeepsErrors(a, i, b);
    } else if CollectorStep(a, b) {
      hide Inv;
      CollectorStepKeepsInv(a, b);
    }
  }

  // ------------------------------------------------------------------- channels

  /** Distinct worker numbers below n that leave out one of them are fewer than n. */
  lemma {:induction false} Pigeonhole(items: seq<Item>, n: nat, missing: nat)
    requires DistinctWorkers(items) && missing < n
    requires forall j :: 0 <= j < |items| ==> items[j].worker < n && items[j].worker != missing
    ensures |items| < n
  {
    var seen := set j | 0 <= j < |items| :: items[j].worker;
    var all := Below(n);
    CountDistinct(items);
    assert seen <= all - {missing};
    CountSubset(seen, all - {missing});
  }

  lemma CountSubset<T>(a: set<T>, b: set<T>)
    requires a <= b
    ensures |a| <= |b|
  {
    assert b == a + (b - a);
  }

  function Below(n: nat): (r: set<nat>)
    ensures |r| == n && forall k: nat :: k in r <==> k < n
  {
    if n == 0 then {} else Below(n - 1) + {n - 1}
  }

  lemma {:induction false} CountDistinct(items: seq<Item>)
    requires DistinctWorkers(items)
    ensures |set j | 0 <= j < |items| :: items[j].worker| == |items|
  {
    if items != [] {
      var n := |items| - 1;
      var front := items[..n];
      CountDistinct(front);
      assert (set j | 0 <= j < |items| :: items[j].worker) ==
             (set j | 0 <= j < |front| :: front[j].worker) + {items[n].worker};
    }
  }

  // How many steps of its own a worker still needs, at most.
  function Distance(w: Worker): nat {
    match w
    case Working => 3
    case Reporting(_) => 2
    case Sending(_) => 1
    case Cancelling => 1
    case _ => 0
  }

  /** No send to resultsChan ever blocks, even after the collector has returned: a worker that has not
      ended can always take its next step. */
  lemma WorkerNeverBlocks(s: State, i: nat) returns (s': State)
    requires Inv(s) && i < |s.workers| && !s.workers[i].Sent? && !s.workers[i].Failed?
    ensures WorkerStep(s, i, s')
  {
    match s.workers[i] {
      case Working =>
        var v: Value := 0;
        s' := s.(workers := s.workers[i := Sending(v)]);
      case Sending(v) =>
        var items := s.results + s.resultsChan;
        assert forall j :: 0 <= j < |items| ==> items[j].worker != i;
        Pigeonhole(items, |s.workers|, i);
        s' := s.(workers := s.workers[i := Sent(v)], resultsChan := s.resultsChan + [Item(i, v)]);
      case Reporting(e) =>
        s' := s.(workers := s.workers[i := Cancelling], errChan := if s.errChan.None? then Some(e) else s.errChan);
      case Cancelling =>
        s' := s.(workers := s.workers[i := Failed], cancelled := true);
    }
  }

  /** Every step of a worker brings it nearer to its end, whichever way it goes, and no other step moves it. */
  lemma StepsBringEnd(a: State, b: State, i: nat)
    requires Step(a, b) && i < |a.workers|
    ensures |b.workers| == |a.workers|
    ensures WorkerStep(a, i, b) ==> Distance(b.workers[i]) < Distance(a.workers[i])
    ensures !WorkerStep(a, i, b) ==> b.workers[i] == a.workers[i]
  {
    hide CollectorStep;
    if j :| 0 <= j < |a.workers| && WorkerStep(a, j, b) {
      WorkerMovesItself(a, j, b, i);
    } else if CollectorStep(a, b) {
      CollectorMovesNoWorker(a, b);
      assert b.workers == a.workers;
    }
    if WorkerStep(a, i, b) {
      WorkerMovesItself(a, i, b, i);
    }
  }

  lemma WorkerMovesItself(a: State, i: nat, b: State, j: nat)
    requires i < |a.workers| && WorkerStep(a, i, b) && j < |a.workers|
    ensures |b.workers| == |a.workers|
    ensures if i == j then Distance(b.workers[j]) < Distance(a.workers[j]) else b.workers[j] == a.workers[j]
  {}

  lemma CollectorMovesNoWorker(a: State, b: State)
    requires CollectorStep(a, b)
    ensures b.workers == a.workers
  {}

  /** So it ends within three steps of its own, also after the collector has returned. */
  lemma {:induction false} WorkerEnds(s: State, i: nat) returns (run: seq<State>)
    requires Inv(s) && i < |s.workers|
    ensures 1 <= |run| <= Distance(s.workers[i]) + 1 && run[0] == s
    ensures forall k :: 0 <= k < |run| - 1 ==> i < |run[k].workers| && WorkerStep(run[k], i, run[k + 1])
    ensures var last := run[|run| - 1]; i < |last.workers| && (last.workers[i].Sent? || last.workers[i].Failed?)
    decreases Distance(s.workers[i])
  {
    hide Inv, WorkerStep, CollectorStep;
    if s.workers[i].Sent? || s.workers[i].Failed? {
      run := [s];
    } else {
      var s' := WorkerNeverBlocks(s, i);
      assert Step(s, s');
      StepKeepsInv(s, s');
      StepsBringEnd(s, s', i);
      var rest := WorkerEnds(s', i);
      run := [s] + rest;
    }
  }

  /** Once all workers have ended, the collector always has a case to take: it never deadlocks. */
  lemma CollectorNeverDeadlocks(s: State) returns (s': State)
    requires Inv(s) && s.collector == Collecting
    requires forall i :: 0 <= i < |s.workers| ==> s.workers[i].Sent? || s.workers[i].Failed?
    ensures CollectorStep(s, s')
  {
    if |s.results| == |s.workers| {
      s' := s.(collector := ReturnedAll, cancelled := true);
    } else if s.errChan.Some? {
      s' := s.(collector := ReturnedError(s.errChan.value), errChan := None, cancelled := true);
    } else {
      AllSent(s);
      s' := s.(results := s.results + [s.resultsChan[0]], resultsChan := s.resultsChan[1..]);
    }
  }

  lemma AllSent(s: State)
    requires Inv(s) && s.collector == Collecting && s.errChan.None?
    requires forall i :: 0 <= i < |s.workers| ==> s.workers[i].Sent? || s.workers[i].Failed?
    ensures |s.results| + |s.resultsChan| == |s.workers|
  {
    var items := s.results + s.resultsChan;
    AllGathered(s, items);
  }

  // Items of distinct workers, one for each worker, are as many as the workers.
  lemma AllGathered(s: State, items: seq<Item>)
    requires DistinctWorkers(items)
    requires forall j :: 0 <= j < |items| ==> items[j].worker < |s.workers|
    requires forall i :: 0 <= i < |s.workers| ==> s.workers[i].Sent? && Item(i, s.workers[i].value) in items
    ensures |items| == |s.workers|
  {
    var seen := set j | 0 <= j < |items| :: items[j].worker;
    CountDistinct(items);
    forall i: nat | i < |s.workers| ensures i in seen {
      var j :| 0 <= j < |items| && items[j] == Item(i, s.workers[i].value);
    }
    assert seen == Below(|s.workers|);
  }

  // --------------------------------------------------------------------- results

  function Values(items: seq<Item>): seq<Value> {
    if items == [] then [] else [items[0].value] + Values(items[1..])
  }

  function Outputs(workers: seq<Worker>): seq<Value>
    requires forall i :: 0 <= i < |workers| ==> workers[i].Sent?
  {
    if workers == [] then []
    else Outputs(workers[..|workers| - 1]) + [workers[|workers| - 1].value]
  }

  lemma {:induction false} ValuesAppend(a: seq<Item>, b: seq<Item>)
    ensures Values(a + b) == Values(a) + Values(b)
  {
    if a == [] {
      assert a + b == b;
    } else {
      assert (a + b)[1..] == a[1..] + b;
      ValuesAppend(a[1..], b);
    }
  }

  lemma ValuesCons(item: Item, items: seq<Item>)
    ensures Values([item] + items) == [item.value] + Values(items)
  {
    assert ([item] + items)[1..] == items;
  }

  lemma ValuesSplit(items: seq<Item>, k: nat)
    requires k < |items|
    ensures multiset(Values(items)) == multiset(Values(items[..k] + items[k + 1..])) + multiset{items[k].value}
  {
    hide Values;
    ValuesAppend(items[..k], items[k..]);
    ValuesAppend(items[..k], items[k + 1..]);
    ValuesCons(items[k], items[k + 1..]);
    assert items[k..] == [items[k]] + items[k + 1..];
    assert items == items[..k] + items[k..];
  }

  lemma OutputsLast(workers: seq<Worker>)
    requires workers != [] && forall i :: 0 <= i < |workers| ==> workers[i].Sent?
    ensures multiset(Outputs(workers)) ==
            multiset(Outputs(workers[..|workers| - 1])) + multiset{workers[|workers| - 1].value}
  {}

  /** Items of distinct workers, one for each worker, are a permutation of the workers' outputs. */
  lemma {:induction false} GatheredIsPermutation(items: seq<Item>, workers: seq<Worker>)
    requires DistinctWorkers(items) && |items| == |workers|
    requires forall i :: 0 <= i < |workers| ==> workers[i].Sent?
    requires forall j :: 0 <= j < |items| ==>
               items[j].worker < |workers| && workers[items[j].worker] == Sent(items[j].value)
    ensures multiset(Values(items)) == multiset(Outputs(workers))
    decreases |workers|
  {
    if workers == [] {
      assert items == [];
    } else {
      hide Values, Outputs;
      var n := |workers| - 1;
      var k := FindWorker(items, |workers|, n);
      ValuesSplit(items, k);
      RemoveWorker(items, workers, k);
      GatheredIsPermutation(items[..k] + items[k + 1..], workers[..n]);
      OutputsLast(workers);
    }
  }

  lemma RemoveWorker(items: seq<Item>, workers: seq<Worker>, k: nat)
    requires DistinctWorkers(items) && k < |items| == |workers| && items[k].worker == |workers| - 1
    requires forall j :: 0 <= j < |items| ==>
               items[j].worker < |workers| && workers[items[j].worker] == Sent(items[j].value)
    ensures var rest, n := items[..k] + items[k + 1..], |workers| - 1;
            DistinctWorkers(rest) && forall j :: 0 <= j < |rest| ==>
              rest[j].worker < n && workers[..n][rest[j].worker] == Sent(rest[j].value)
  {
    RemoveKeepsDistinct(items, k);
    var rest := items[..k] + items[k + 1..];
    forall j | 0 <= j < |rest|
      ensures rest[j].worker < |workers| - 1 && workers[rest[j].worker] == Sent(rest[j].value)
    {
      assert rest[j] == items[if j < k then j else j + 1];
    }
  }

  lemma RemoveKeepsDistinct(items: seq<Item>, k: nat)
    requires DistinctWorkers(items) && k < |items|
    ensures DistinctWorkers(items[..k] + items[k + 1..])
  {}

  lemma FindWorker(items: seq<Item>, n: nat, w: nat) returns (k: nat)
    requires DistinctWorkers(items) && |items| == n && w < n
    requires forall j :: 0 <= j < |items| ==> items[j].worker < n
    ensures k < |items| && items[k].worker == w
  {
    if !exists j :: 0 <= j < |items| && items[j].worker == w {
      Pigeonhole(items, n, w);
    }
    k :| 0 <= k < |items| && items[k].worker == w;
  }

  // ------------------------------------------------------------------------ runs

  ghost predicate IsRun(run: seq<State>) {
    && run != [] && Init(run[0])
    && forall k :: 0 <= k < |run| - 1 ==> Step(run[k], run[k + 1])
  }

  lemma {:induction false} RunKeepsInv(run: seq<State>, k: nat)
    requires IsRun(run) && k < |run|
    ensures Inv(run[k])
  {
    hide Step, Init, Inv;
    if k == 0 {
      InitInv(run[0]);
    } else {
      RunKeepsInv(run, k - 1);
      assert Step(run[k - 1], run[k - 1 + 1]);
      StepKeepsInv(run[k - 1], run[k]);
    }
  }

  /** In every run: a return without error gives a permutation of the outputs of all the workers. */
  lemma AllResultsOrError(run: seq<State>, k: nat)
    requires IsRun(run) && k < |run| && run[k].collector == ReturnedAll
    ensures forall i :: 0 <= i < |run[k].workers| ==> run[k].workers[i].Sent?
    ensures multiset(Values(run[k].results)) == multiset(Outputs(run[k].workers))
  {
    hide Step, Init, WorkerStep, CollectorStep;
    RunKeepsInv(run, k);
    var s := run[k];
    var items := s.results + s.resultsChan;
    assert forall j :: 0 <= j < |s.results| ==> s.results[j] == items[j];
    forall i: nat | i < |s.workers| ensures s.workers[i].Sent? {
      var j := FindWorker(s.results, |s.workers|, i);
    }
    GatheredIsPermutation(s.results, s.workers);
  }

  /** In every run: the error returned was raised before any of the call's own cancels; without a
      parent cancellation the context was live then, so it is never a sibling's cancellation. */
  lemma RootCauseIsReturned(run: seq<State>, k: nat)
    requires IsRun(run) && k < |run| && run[k].collector.ReturnedError?
    ensures !run[k].collector.error.internal
    ensures !run[k].parentCancelled ==> run[k].collector.error.live
  {
    hide Step, Init, WorkerStep, CollectorStep;
    RunKeepsInv(run, k);
  }
}
