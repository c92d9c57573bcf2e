/** What the callers of the single-flight loader are given is what a parse gave: the outcomes of the parses of
    a run, and where they end up. */
module LoadOutcomes {
  import opened Bytes
  import opened SingleFlight
  import opened Cancellation

  /** In the step from a to b, thread t's parse of the file for call c gives an object. */
  ghost predicate Gives(a: State, t: ThreadId, b: State, name: Name, obj: ParsedFile) {
    && t in a.threads && a.threads[t].Parsing? && a.threads[t].name == name
    && b == a.(threads := a.threads[t := Publishing(name, a.threads[t].own, obj)])
  }

  /** In the step from a to b, thread t's parse for call c ends in an error. */
  ghost predicate Fails(a: State, t: ThreadId, b: State, c: CallId, code: nat) {
    && t in a.threads && a.threads[t].Parsing? && a.threads[t].own == c
    && b == a.(threads := a.threads[t := Failing(a.threads[t].name, c, ParseError(code))])
  }

  ghost predicate GaveAt(run: seq<State>, threads: seq<ThreadId>, k: nat, name: Name, obj: ParsedFile) {
    k < |threads| && k + 1 < |run| && Gives(run[k], threads[k], run[k + 1], name, obj)
  }

  ghost predicate FailedAt(run: seq<State>, threads: seq<ThreadId>, k: nat, c: CallId, code: nat) {
    k < |threads| && k + 1 < |run| && Fails(run[k], threads[k], run[k + 1], c, code)
  }

  // ---------------------------------------------------------------------- objects

  /** The object is loaded under the name, or about to be. */
  ghost predicate HasObject(s: State, name: Name, obj: ParsedFile) {
    || (name in s.loadedFiles && s.loadedFiles[name] == obj)
    || exists t :: IsPublishing(s, t, name, obj)
  }

  ghost predicate IsPublishing(s: State, t: ThreadId, name: Name, obj: ParsedFile) {
    t in s.threads && s.threads[t].Publishing? && s.threads[t].name == name && s.threads[t].obj == obj
  }

  lemma OthersKeepPublishing(a: State, t: ThreadId, b: State, u: ThreadId, name: Name, obj: ParsedFile)
    requires StepOrCancel(a, t, b) && u != t
    ensures IsPublishing(b, u, name, obj) <==> IsPublishing(a, u, name, obj)
  {}

  lemma OwnPublishing(a: State, t: ThreadId, b: State, name: Name, obj: ParsedFile)
    requires StepOrCancel(a, t, b)
    ensures IsPublishing(b, t, name, obj) ==> IsPublishing(a, t, name, obj) || Gives(a, t, b, name, obj)
    ensures Gives(a, t, b, name, obj) ==> IsPublishing(b, t, name, obj)
    ensures IsPublishing(a, t, name, obj) ==>
              IsPublishing(b, t, name, obj) || (name in b.loadedFiles && b.loadedFiles[name] == obj)
  {}

  lemma LoadedStep(a: State, t: ThreadId, b: State, name: Name, obj: ParsedFile)
    requires Inv(a) && StepOrCancel(a, t, b)
    ensures name in b.loadedFiles && b.loadedFiles[name] == obj ==>
              (name in a.loadedFiles && a.loadedFiles[name] == obj) || IsPublishing(a, t, name, obj)
    ensures name in a.loadedFiles && a.loadedFiles[name] == obj ==>
              name in b.loadedFiles && b.loadedFiles[name] == obj
  {
    if t in a.threads && Leading(a.threads[t]) {
      LeaderIsGood(a, t);
    }
    hide Inv;
  }

  lemma ObjectStep(a: State, t: ThreadId, b: State, name: Name, obj: ParsedFile)
    requires Inv(a) && StepOrCancel(a, t, b)
    ensures HasObject(b, name, obj) <==> HasObject(a, name, obj) || Gives(a, t, b, name, obj)
  {
    hide Inv, StepOrCancel, IsPublishing, Gives;
    LoadedStep(a, t, b, name, obj);
    OwnPublishing(a, t, b, name, obj);
    forall u | u != t ensures IsPublishing(b, u, name, obj) <==> IsPublishing(a, u, name, obj) {
      OthersKeepPublishing(a, t, b, u, name, obj);
    }
  }

  lemma {:induction false} ObjectHistory(run: seq<State>, threads: seq<ThreadId>, n: nat, name: Name, obj: ParsedFile)
    requires IsRun(run, threads) && n < |run|
    ensures HasObject(run[n], name, obj) <==> exists k: nat :: k < n && GaveAt(run, threads, k, name, obj)
  {
    hide Inv, HasObject, Gives, StepOrCancel;
    if n == 0 {
      NothingAtFirst(run[0], name, obj, 0, 0);
    } else {
      ObjectHistory(run, threads, n - 1, name, obj);
      RunIsSafe(run, threads, n - 1, n - 1);
      assert StepOrCancel(run[n - 1], threads[n - 1], run[n - 1 + 1]);
      ObjectStep(run[n - 1], threads[n - 1], run[n], name, obj);
      assert GaveAt(run, threads, n - 1, name, obj) <==> Gives(run[n - 1], threads[n - 1], run[n], name, obj);
    }
  }

  lemma NothingAtFirst(s: State, name: Name, obj: ParsedFile, c: CallId, code: nat)
    requires Init(s)
    ensures !HasObject(s, name, obj) && !HasError(s, c, code)
  {}

  // ----------------------------------------------------------------------- errors

  /** The call holds the error, or its leader is about to set it. */
  ghost predicate HasError(s: State, c: CallId, code: nat) {
    && c in s.calls
    && var call := s.calls[c];
    || call.err == Some(ParseError(code))
    || (call.leader in s.threads && s.threads[call.leader] == Failing(call.name, c, ParseError(code)))
  }

  lemma LeadKeepsError(a: State, t: ThreadId, b: State, c: CallId, code: nat)
    requires Inv(a) && t in a.threads && Leading(a.threads[t]) && Lead(a, t, b)
    ensures HasError(b, c, code) <==> HasError(a, c, code) || Fails(a, t, b, c, code)
  {
    LeaderIsGood(a, t);
    if c in a.calls && c != a.threads[t].own {
      assert GoodCall(a, c, a.calls[c]);
    }
    hide Inv, GoodLoading, OneResult;
  }

  lemma OtherKeepsError(a: State, t: ThreadId, b: State, c: CallId, code: nat)
    requires Inv(a) && StepOrCancel(a, t, b) && (t in a.threads && Leading(a.threads[t]) ==> Cancel(a, t, b))
    ensures HasError(b, c, code) <==> HasError(a, c, code)
    ensures !Fails(a, t, b, c, code)
  {
    OtherFrame(a, t, b, c);
    if c in a.calls {
      assert GoodCall(a, c, a.calls[c]);
    }
    hide Inv, OneResult, StepOrCancel;
  }

  // A step of a caller that leads nothing keeps the calls, up to a new one of its own.
  lemma OtherFrame(a: State, t: ThreadId, b: State, c: CallId)
    requires StepOrCancel(a, t, b) && (t in a.threads && Leading(a.threads[t]) ==> Cancel(a, t, b))
    ensures c in a.calls ==> c in b.calls && b.calls[c] == a.calls[c]
    ensures c in b.calls && c !in a.calls ==>
              b.calls[c].err == None && b.calls[c].leader in b.threads && !b.threads[b.calls[c].leader].Failing?
    ensures forall u | u != t || (u in a.threads && Leading(a.threads[u])) ::
              if u in a.threads then u in b.threads && b.threads[u] == a.threads[u] else u !in b.threads
    ensures t in b.threads && !(t in a.threads && Leading(a.threads[t])) ==> !b.threads[t].Failing?
  {}

  lemma {:induction false} ErrorHistory(run: seq<State>, threads: seq<ThreadId>, n: nat, c: CallId, code: nat)
    requires IsRun(run, threads) && n < |run|
    ensures HasError(run[n], c, code) <==> exists k: nat :: k < n && FailedAt(run, threads, k, c, code)
  {
    hide Inv, HasError, Fails, Start, Enter, Wait, Lead, Cancel;
    if n == 0 {
      NothingAtFirst(run[0], [], 0, c, code);
    } else {
      ErrorHistory(run, threads, n - 1, c, code);
      RunIsSafe(run, threads, n - 1, n - 1);
      var a, t, b := run[n - 1], threads[n - 1], run[n];
      assert StepOrCancel(a, t, run[n - 1 + 1]);
      if t in a.threads && Leading(a.threads[t]) && !Cancel(a, t, b) {
        LeadKeepsError(a, t, b, c, code);
      } else {
        OtherKeepsError(a, t, b, c, code);
      }
      assert FailedAt(run, threads, n - 1, c, code) <==> Fails(a, t, b, c, code);
    }
  }

  // --------------------------------------------------------------------- callers

  /** In every run, a file that a caller is given is one that a parse of the file it asked for gave, at an
      earlier step; and the error it is given, unless it gave up, is the one in which the parse for its own
      call ended. */
  lemma CallersGetParses(run: seq<State>, threads: seq<ThreadId>, n: nat, t: ThreadId)
    requires IsRun(run, threads) && n < |run| && t in run[n].threads && run[n].threads[t].Returned?
    ensures var pc := run[n].threads[t];
            && (pc.file.Some? ==> exists k: nat :: k < n && GaveAt(run, threads, k, pc.name, pc.file.value))
            && (pc.err.Some? && !pc.gaveUp ==>
                 && pc.call.Some? && pc.err.value.ParseError?
                 && exists k: nat :: k < n && FailedAt(run, threads, k, pc.call.value, pc.err.value.code))
  {
    hide IsRun, GaveAt, FailedAt, Inv;
    RunIsSafe(run, threads, n, n);
    CallersShareResult(run, threads, n, t);
    var pc := run[n].threads[t];
    assert OneResult(run[n], pc.name, pc.file, pc.err);
    hide Safe;
    if pc.file.Some? {
      ObjectHistory(run, threads, n, pc.name, pc.file.value);
    }
    if pc.err.Some? && !pc.gaveUp {
      assert pc.call.Some?;
      GivenUpHistory(run, threads, n, t);
      assert CleanThread(run[n], t);
      ErrorHistory(run, threads, n, pc.call.value, pc.err.value.code);
    }
  }

  /** And an object that a parse gave is loaded, or about to be, from then on. */
  lemma ParsesAreLoaded(run: seq<State>, threads: seq<ThreadId>, k: nat, n: nat, name: Name, obj: ParsedFile)
    requires IsRun(run, threads) && k < n < |run| && GaveAt(run, threads, k, name, obj)
    ensures HasObject(run[n], name, obj)
  {
    hide IsRun, GaveAt, HasObject;
    ObjectHistory(run, threads, n, name, obj);
  }
}
