/** The single-flight file loader: any number of concurrent callers, where one caller per file
    parses it and the others wait on its call. Each step is one critical section under the
    workspace mutex, one write to a call, one channel close, or one return. */
module SingleFlight {
  import opened Bytes

  type Name = bytes
  type ThreadId = nat
  type CallId = nat
  type ParsedFile = nat

  // An error of a parse, or the error of a cancelled context.
  datatype LoadError = ParseError(code: nat) | Cancelled

  datatype Call = Call(name: Name, leader: ThreadId, done: bool, file: Option<ParsedFile>, err: Option<LoadError>)

  // Where a caller of LoadFile(name) is. A leader holds the identity of its own call.
  datatype PC =
    | Entering(name: Name)
    | Waiting(name: Name, on: CallId)
    | Parsing(name: Name, own: CallId)
    | Publishing(name: Name, own: CallId, obj: ParsedFile)   // parsed; about to set loadedFiles
    | Filling(name: Name, own: CallId, obj: ParsedFile)      // about to set call.file
    | Failing(name: Name, own: CallId, error: LoadError)     // about to set call.err
    | Closing(name: Name, own: CallId)                       // about to close call.done
    | Deleting(name: Name, own: CallId)                      // about to delete the call
    // The result, and the call it was taken from, if any; a caller that gave up took its own context's error.
    | Returned(name: Name, call: Option<CallId>, file: Option<ParsedFile>, err: Option<LoadError>, gaveUp: bool)

  datatype State = State(
    threads: map<ThreadId, PC>,
    loadedFiles: map<Name, ParsedFile>,
    loadingFiles: map<Name, CallId>,
    calls: map<CallId, Call>,
    cancelled: set<ThreadId>)   // whose contexts are cancelled

  predicate Leading(pc: PC) {
    pc.Parsing? || pc.Publishing? || pc.Filling? || pc.Failing? || pc.Closing? || pc.Deleting?
  }

  ghost predicate Init(s: State) { s == State(map[], map[], map[], map[], {}) }

  // ------------------------------------------------------------------- steps

  ghost predicate Start(a: State, t: ThreadId, b: State) {
    t !in a.threads && exists name :: b == a.(threads := a.threads[t := Entering(name)])
  }

  /** The lookups and the registration of a new call, under the mutex. */
  ghost predicate Enter(a: State, t: ThreadId, b: State)
    requires t in a.threads && a.threads[t].Entering?
  {
    var name := a.threads[t].name;
    if name in a.loadedFiles then
      b == a.(threads := a.threads[t := Returned(name, None, Some(a.loadedFiles[name]), None, false)])
    else if name in a.loadingFiles then
      b == a.(threads := a.threads[t := Waiting(name, a.loadingFiles[name])])
    else
      exists c :: c !in a.calls
        && b == a.(threads := a.threads[t := Parsing(name, c)],
                   loadingFiles := a.loadingFiles[name := c],
                   calls := a.calls[c := Call(name, t, false, None, None)])
  }

  /** Either the call's channel is closed, or the caller's own context is cancelled. */
  ghost predicate Wait(a: State, t: ThreadId, b: State)
    requires t in a.threads && a.threads[t].Waiting?
  {
    var pc := a.threads[t];
    || (pc.on in a.calls && a.calls[pc.on].done
        && var call := a.calls[pc.on];
           b == a.(threads := a.threads[t := Returned(pc.name, Some(pc.on), call.file, call.err, false)]))
    || (t in a.cancelled
        && b == a.(threads := a.threads[t := Returned(pc.name, Some(pc.on), None, Some(Cancelled), true)]))
  }

  ghost predicate Lead(a: State, t: ThreadId, b: State)
    requires t in a.threads && Leading(a.threads[t])
  {
    var pc := a.threads[t];
    pc.own in a.calls &&
    var call := a.calls[pc.own];
    match pc
    case Parsing(name, c) =>
      || (exists obj :: b == a.(threads := a.threads[t := Publishing(name, c, obj)]))
      // No parse reads its context, so none ends in its cancellation.
      || (exists code :: b == a.(threads := a.threads[t := Failing(name, c, ParseError(code))]))
    case Publishing(name, c, obj) =>
      b == a.(threads := a.threads[t := Filling(name, c, obj)], loadedFiles := a.loadedFiles[name := obj])
    case Filling(name, c, obj) =>
      b == a.(threads := a.threads[t := Closing(name, c)], calls := a.calls[c := call.(file := Some(obj))])
    case Failing(name, c, error) =>
      b == a.(threads := a.threads[t := Closing(name, c)], calls := a.calls[c := call.(err := Some(error))])
    case Closing(name, c) =>
      b == a.(threads := a.threads[t := Deleting(name, c)], calls := a.calls[c := call.(done := true)])
    case Deleting(name, c) =>
      b == a.(threads := a.threads[t := Returned(name, Some(c), call.file, call.err, false)],
              loadingFiles := a.loadingFiles - {name})
  }

  ghost predicate Step(a: State, t: ThreadId, b: State) {
    if t !in a.threads then Start(a, t, b)
    else if a.threads[t].Entering? then Enter(a, t, b)
    else if a.threads[t].Waiting? then Wait(a, t, b)
    else if Leading(a.threads[t]) then Lead(a, t, b)
    else false
  }

  /** The context of a caller is cancelled. */
  ghost predicate Cancel(a: State, t: ThreadId, b: State) {
    b == a.(cancelled := a.cancelled + {t})
  }

  // --------------------------------------------------------------- invariant

  /** A call's result is one of a file, the one in loadedFiles, and an error. */
  ghost predicate OneResult(s: State, name: Name, file: Option<ParsedFile>, err: Option<LoadError>) {
    && (file.Some? <==> err.None?)
    && (file.Some? ==> name in s.loadedFiles && s.loadedFiles[name] == file.value)
  }

  ghost predicate GoodCall(s: State, c: CallId, call: Call) {
    && call.leader in s.threads
    && (call.done ==> OneResult(s, call.name, call.file, call.err))
    && (!call.done ==>
          && Leading(s.threads[call.leader]) && !s.threads[call.leader].Deleting?
          && s.threads[call.leader].own == c)
  }

  ghost predicate GoodThread(s: State, t: ThreadId, pc: PC) {
    match pc
    case Entering(_) => true
    case Waiting(name, c) => c in s.calls && s.calls[c].name == name
    case Returned(name, _, file, err, _) => OneResult(s, name, file, err)
    case _ => GoodLeader(s, t, pc)
  }

  ghost predicate GoodLeader(s: State, t: ThreadId, pc: PC)
    requires Leading(pc)
  {
    && pc.name in s.loadingFiles && s.loadingFiles[pc.name] == pc.own
    && pc.own in s.calls
    && var call := s.calls[pc.own];
    && call.name == pc.name && call.leader == t
    && (call.done <==> pc.Deleting?)
    && (pc.Parsing? || pc.Publishing? || pc.Failing? ==> pc.name !in s.loadedFiles)
    && (pc.Filling? ==> pc.name in s.loadedFiles && s.loadedFiles[pc.name] == pc.obj)
    && (if pc.Closing? || pc.Deleting? then OneResult(s, call.name, call.file, call.err)
        else call.file == None && call.err == None)
  }

  ghost predicate GoodLoading(s: State, name: Name)
    requires name in s.loadingFiles
  {
    && s.loadingFiles[name] in s.calls
    && var call := s.calls[s.loadingFiles[name]];
    && call.name == name && call.leader in s.threads
    && Leading(s.threads[call.leader]) && s.threads[call.leader].name == name
    && s.threads[call.leader].own == s.loadingFiles[name]
  }

  ghost predicate Inv(s: State) {
    && (forall t | t in s.threads :: GoodThread(s, t, s.threads[t]))
    && (forall c | c in s.calls :: GoodCall(s, c, s.calls[c]))
    && (forall name | name in s.loadingFiles :: GoodLoading(s, name))
  }

  /** A file once loaded stays the one loaded. */
  ghost predicate Extends(a: State, b: State) {
    forall name | name in a.loadedFiles :: name in b.loadedFiles && b.loadedFiles[name] == a.loadedFiles[name]
  }

  lemma StartKeepsInv(a: State, t: ThreadId, b: State)
    requires Inv(a) && t !in a.threads && Start(a, t, b)
    ensures Inv(b) && Extends(a, b)
  {}

  /** A caller that leads nothing may move to any other place where it leads nothing. */
  lemma MoveKeepsInv(a: State, t: ThreadId, pc: PC)
    requires Inv(a) && t in a.threads && !Leading(a.threads[t]) && !Leading(pc) && GoodThread(a, t, pc)
    ensures Inv(a.(threads := a.threads[t := pc]))
  {}

  function Register(a: State, t: ThreadId, c: CallId, name: Name): State {
    a.(threads := a.threads[t := Parsing(name, c)], loadingFiles := a.loadingFiles[name := c],
       calls := a.calls[c := Call(name, t, false, None, None)])
  }

  lemma RegisterKeepsInv(a: State, t: ThreadId, c: CallId, name: Name)
    requires Inv(a) && t in a.threads && a.threads[t] == Entering(name) && c !in a.calls
    requires name !in a.loadedFiles && name !in a.loadingFiles
    ensures Inv(Register(a, t, c, name))
  {
    hide GoodThread, GoodCall, GoodLoading;
    var b := Register(a, t, c, name);
    forall u | u in b.threads ensures GoodThread(b, u, b.threads[u]) {
      RegisterThread(a, t, c, name, u);
    }
    forall d | d in b.calls ensures GoodCall(b, d, b.calls[d]) {
      RegisterCall(a, t, c, name, d);
    }
    forall n | n in b.loadingFiles ensures GoodLoading(b, n) {
      RegisterLoading(a, t, c, name, n);
    }
  }

  lemma RegisterCall(a: State, t: ThreadId, c: CallId, name: Name, d: CallId)
    requires Inv(a) && t in a.threads && a.threads[t] == Entering(name) && c !in a.calls
    requires d in Register(a, t, c, name).calls
    ensures GoodCall(Register(a, t, c, name), d, Register(a, t, c, name).calls[d])
  {
    hide GoodThread, GoodLoading;
    if d != c {
      assert GoodCall(a, d, a.calls[d]);
    }
  }

  lemma RegisterLoading(a: State, t: ThreadId, c: CallId, name: Name, n: Name)
    requires Inv(a) && t in a.threads && a.threads[t] == Entering(name) && c !in a.calls
    requires n in Register(a, t, c, name).loadingFiles
    ensures GoodLoading(Register(a, t, c, name), n)
  {
    hide GoodThread, GoodCall;
    if n != name {
      assert GoodLoading(a, n);
    }
  }

  lemma RegisterThread(a: State, t: ThreadId, c: CallId, name: Name, u: ThreadId)
    requires Inv(a) && t in a.threads && a.threads[t] == Entering(name) && c !in a.calls
    requires name !in a.loadedFiles && name !in a.loadingFiles
    requires u in Register(a, t, c, name).threads
    ensures GoodThread(Register(a, t, c, name), u, Register(a, t, c, name).threads[u])
  {
    hide GoodCall, GoodLoading;
    if u != t {
      assert GoodThread(a, u, a.threads[u]);
    }
  }

  lemma EnterKeepsInv(a: State, t: ThreadId, b: State)
    requires Inv(a) && t in a.threads && a.threads[t].Entering? && Enter(a, t, b)
    ensures Inv(b) && Extends(a, b)
  {
    var name := a.threads[t].name;
    if name in a.loadedFiles {
      hide Inv;
      MoveKeepsInv(a, t, Returned(name, None, Some(a.loadedFiles[name]), None, false));
    } else if name in a.loadingFiles {
      assert GoodLoading(a, name);
      hide Inv;
      MoveKeepsInv(a, t, Waiting(name, a.loadingFiles[name]));
    } else {
      hide Inv;
      var c :| c !in a.calls && b == Register(a, t, c, name);
      RegisterKeepsInv(a, t, c, name);
    }
  }

  lemma WaitKeepsInv(a: State, t: ThreadId, b: State)
    requires Inv(a) && t in a.threads && a.threads[t].Waiting? && Wait(a, t, b)
    ensures Inv(b) && Extends(a, b)
  {
    assert GoodThread(a, t, a.threads[t]);
    assert GoodCall(a, a.threads[t].on, a.calls[a.threads[t].on]);
    hide Inv;
    MoveKeepsInv(a, t, b.threads[t]);
  }

  // A leader's step that stays within its own call: b is a but for the leader's place, the result of
  // its call, and the loaded file of its name.
  ghost predicate OwnStep(a: State, t: ThreadId, b: State)
    requires t in a.threads && Leading(a.threads[t])
  {
    var (name, c) := (a.threads[t].name, a.threads[t].own);
    && t in b.threads && b.threads == a.threads[t := b.threads[t]]
    && c in a.calls && c in b.calls && b.calls == a.calls[c := b.calls[c]]
    && b.calls[c].name == name && b.calls[c].leader == t
    && b.loadingFiles == a.loadingFiles
    && Extends(a, b) && forall n | n in b.loadedFiles && n != name :: n in a.loadedFiles
  }

  lemma OthersStay(a: State, t: ThreadId, b: State, u: ThreadId)
    requires Inv(a) && t in a.threads && Leading(a.threads[t]) && GoodLeader(a, t, a.threads[t]) && OwnStep(a, t, b)
    requires u in a.threads && u != t
    ensures GoodThread(b, u, b.threads[u])
  {
    hide GoodCall, GoodLoading;
    assert GoodThread(a, u, a.threads[u]);
  }

  lemma OtherCallsStay(a: State, t: ThreadId, b: State, c: CallId)
    requires Inv(a) && t in a.threads && Leading(a.threads[t]) && GoodLeader(a, t, a.threads[t]) && OwnStep(a, t, b)
    requires c in a.calls && c != a.threads[t].own
    ensures GoodCall(b, c, b.calls[c])
  {
    hide GoodThread, GoodLoading;
    assert GoodCall(a, c, a.calls[c]);
  }

  lemma LoadingStays(a: State, t: ThreadId, b: State, name: Name)
    requires Inv(a) && t in a.threads && Leading(a.threads[t]) && GoodLeader(a, t, a.threads[t]) && OwnStep(a, t, b)
    requires Leading(b.threads[t]) && b.threads[t].name == a.threads[t].name && b.threads[t].own == a.threads[t].own
    requires name in b.loadingFiles
    ensures GoodLoading(b, name)
  {
    hide GoodThread, GoodCall;
    assert GoodLoading(a, name);
  }

  lemma OwnStepKeepsInv(a: State, t: ThreadId, b: State)
    requires Inv(a) && t in a.threads && Leading(a.threads[t]) && GoodLeader(a, t, a.threads[t]) && OwnStep(a, t, b)
    requires Leading(b.threads[t]) && b.threads[t].name == a.threads[t].name && b.threads[t].own == a.threads[t].own
    requires GoodLeader(b, t, b.threads[t]) && GoodCall(b, b.threads[t].own, b.calls[b.threads[t].own])
    ensures Inv(b)
  {
    forall u | u in b.threads ensures GoodThread(b, u, b.threads[u]) {
      hide Inv, GoodLeader, GoodCall, Extends;
      if u != t {
        OthersStay(a, t, b, u);
      }
    }
    forall c | c in b.calls ensures GoodCall(b, c, b.calls[c]) {
      hide Inv, GoodLeader, GoodCall, Extends;
      if c != a.threads[t].own {
        OtherCallsStay(a, t, b, c);
      }
    }
    forall name | name in b.loadingFiles ensures GoodLoading(b, name) {
      hide Inv, GoodLeader, GoodCall, Extends;
      LoadingStays(a, t, b, name);
    }
  }

  /** Parsing, publishing the file, setting the call's result and closing its channel. */
  lemma LeadKeepsInv(a: State, t: ThreadId, b: State)
    requires Inv(a) && t in a.threads && Leading(a.threads[t]) && !a.threads[t].Deleting? && Lead(a, t, b)
    ensures Inv(b) && Extends(a, b)
  {
    hide Inv;
    LeaderIsGood(a, t);
    assert Leading(b.threads[t]) && OwnStep(a, t, b);
    assert GoodLeader(b, t, b.threads[t]) by { LeadKeepsLeader(a, t, b); }
    OwnStepKeepsInv(a, t, b);
  }

  lemma LeadKeepsLeader(a: State, t: ThreadId, b: State)
    requires t in a.threads && Leading(a.threads[t]) && !a.threads[t].Deleting? && Lead(a, t, b)
    requires GoodLeader(a, t, a.threads[t])
    ensures t in b.threads && Leading(b.threads[t]) && GoodLeader(b, t, b.threads[t])
  {}

  lemma DeletingKeepsInv(a: State, t: ThreadId, b: State)
    requires Inv(a) && t in a.threads && a.threads[t].Deleting? && Lead(a, t, b)
    ensures Inv(b) && Extends(a, b)
  {
    LeaderIsGood(a, t);
    hide GoodThread, GoodCall, GoodLoading, GoodLeader;
    forall u | u in b.threads ensures GoodThread(b, u, b.threads[u]) {
      DeletingThread(a, t, b, u);
    }
    forall c | c in b.calls ensures GoodCall(b, c, b.calls[c]) {
      DeletingCall(a, t, b, c);
    }
    forall name | name in b.loadingFiles ensures GoodLoading(b, name) {
      DeletingLoading(a, t, b, name);
    }
  }

  lemma DeletingThread(a: State, t: ThreadId, b: State, u: ThreadId)
    requires Inv(a) && t in a.threads && a.threads[t].Deleting? && Lead(a, t, b) && u in b.threads
    ensures GoodThread(b, u, b.threads[u])
  {
    hide GoodCall, GoodLoading;
    LeaderIsGood(a, t);
    assert GoodThread(a, u, a.threads[u]);
  }

  lemma DeletingCall(a: State, t: ThreadId, b: State, c: CallId)
    requires Inv(a) && t in a.threads && a.threads[t].Deleting? && Lead(a, t, b) && c in b.calls
    ensures GoodCall(b, c, b.calls[c])
  {
    hide GoodThread, GoodLoading;
    assert GoodCall(a, c, a.calls[c]);
  }

  lemma DeletingLoading(a: State, t: ThreadId, b: State, name: Name)
    requires Inv(a) && t in a.threads && a.threads[t].Deleting? && Lead(a, t, b) && name in b.loadingFiles
    ensures GoodLoading(b, name)
  {
    hide GoodThread, GoodCall;
    assert GoodLoading(a, name);
  }

  lemma LeaderIsGood(s: State, t: ThreadId)
    requires Inv(s) && t in s.threads && Leading(s.threads[t])
    ensures GoodLeader(s, t, s.threads[t])
  {
    assert GoodThread(s, t, s.threads[t]);
  }

  /** Every step of every thread keeps the invariant, and no loaded file is ever replaced. */
  lemma StepKeepsInv(a: State, t: ThreadId, b: State)
    requires Inv(a) && Step(a, t, b)
    ensures Inv(b) && Extends(a, b)
  {
    hide Inv, Start, Enter, Wait, Lead, Extends;
    if t !in a.threads {
      StartKeepsInv(a, t, b);
    } else {
      match a.threads[t] {
        case Entering(_) => EnterKeepsInv(a, t, b);
        case Waiting(_, _) => WaitKeepsInv(a, t, b);
        case Deleting(_, _) => DeletingKeepsInv(a, t, b);
        case Returned(_, _, _, _, _) =>
        case _ => LeadKeepsInv(a, t, b);
      }
    }
  }

  // ------------------------------------------------------------------- safety

  ghost predicate Safe(s: State) {
    // At most one caller leads the load of a file, so at most one parse of it is in flight.
    && (forall t, u | t in s.threads && u in s.threads && Leading(s.threads[t]) && Leading(s.threads[u])
          && s.threads[t].name == s.threads[u].name :: t == u)
    // No file is parsed again once it is loaded.
    && (forall t | t in s.threads && s.threads[t].Parsing? :: s.threads[t].name !in s.loadedFiles)
    // A caller gets exactly one of the loaded file and an error.
    && (forall t | t in s.threads && s.threads[t].Returned? ::
          OneResult(s, s.threads[t].name, s.threads[t].file, s.threads[t].err))
    // A closed call holds exactly one of them too.
    && (forall c | c in s.calls && s.calls[c].done ::
          OneResult(s, s.calls[c].name, s.calls[c].file, s.calls[c].err))
    // The entry a leader is about to delete is its own.
    && (forall t | t in s.threads && s.threads[t].Deleting? ::
          var pc := s.threads[t];
          && pc.name in s.loadingFiles && s.loadingFiles[pc.name] == pc.own
          && pc.own in s.calls && s.calls[pc.own].leader == t)
  }

  lemma InvIsSafe(s: State)
    requires Inv(s)
    ensures Safe(s)
  {
    hide GoodCall, GoodLoading;
    forall t, u | t in s.threads && u in s.threads && Leading(s.threads[t]) && Leading(s.threads[u])
      && s.threads[t].name == s.threads[u].name
      ensures t == u
    {
      LeaderIsGood(s, t);
      LeaderIsGood(s, u);
    }
    forall t | t in s.threads && Leading(s.threads[t]) ensures GoodLeader(s, t, s.threads[t]) {
      LeaderIsGood(s, t);
    }
    forall c | c in s.calls && s.calls[c].done
      ensures OneResult(s, s.calls[c].name, s.calls[c].file, s.calls[c].err)
    {
      hide GoodThread;
      CallIsGood(s, c);
      DoneCall(s, c);
    }
    forall t | t in s.threads && s.threads[t].Returned?
      ensures OneResult(s, s.threads[t].name, s.threads[t].file, s.threads[t].err)
    {
      assert GoodThread(s, t, s.threads[t]);
    }
  }

  lemma DoneCall(s: State, c: CallId)
    requires c in s.calls && GoodCall(s, c, s.calls[c]) && s.calls[c].done
    ensures OneResult(s, s.calls[c].name, s.calls[c].file, s.calls[c].err)
  {}

  ghost predicate IsRun(run: seq<State>, threads: seq<ThreadId>) {
    && |run| == |threads| + 1
    && Init(run[0])
    && forall n :: 0 <= n < |threads| ==> StepOrCancel(run[n], threads[n], run[n + 1])
  }

  ghost predicate StepOrCancel(a: State, t: ThreadId, b: State) { Step(a, t, b) || Cancel(a, t, b) }

  lemma CancelKeepsInv(a: State, t: ThreadId, b: State)
    requires Inv(a) && Cancel(a, t, b)
    ensures Inv(b) && Extends(a, b)
  {}

  /** Every state of every interleaving is safe, and a file that is loaded at one point is the same
      loaded file at every later point. */
  lemma {:induction false} RunIsSafe(run: seq<State>, threads: seq<ThreadId>, m: nat, n: nat)
    requires IsRun(run, threads) && m <= n < |run|
    ensures Inv(run[n]) && Safe(run[n]) && Extends(run[m], run[n])
    decreases n
  {
    hide Inv, Safe, Step, Cancel, GoodThread;
    if n == 0 {
      InitInv(run[0]);
    } else {
      assert StepOrCancel(run[n - 1], threads[n - 1], run[n - 1 + 1]);
      RunIsSafe(run, threads, if m < n then m else n - 1, n - 1);
      if Step(run[n - 1], threads[n - 1], run[n]) {
        StepKeepsInv(run[n - 1], threads[n - 1], run[n]);
      } else {
        CancelKeepsInv(run[n - 1], threads[n - 1], run[n]);
      }
    }
    InvIsSafe(run[n]);
  }

  lemma InitInv(s: State)
    requires Init(s)
    ensures Inv(s)
  {}

  /** All callers of a file that were given one, at any two points of a run, were given the same one. */
  lemma SameFileForAll(run: seq<State>, threads: seq<ThreadId>, m: nat, n: nat, t: ThreadId, u: ThreadId)
    requires IsRun(run, threads) && m <= n < |run|
    requires t in run[m].threads && run[m].threads[t].Returned? && run[m].threads[t].file.Some?
    requires u in run[n].threads && run[n].threads[u].Returned? && run[n].threads[u].file.Some?
    requires run[m].threads[t].name == run[n].threads[u].name
    ensures run[m].threads[t].file == run[n].threads[u].file
  {
    hide Step, Cancel, GoodCall, GoodLoading;
    RunIsSafe(run, threads, m, n);
    RunIsSafe(run, threads, m, m);
    assert GoodThread(run[m], t, run[m].threads[t]);
    assert GoodThread(run[n], u, run[n].threads[u]);
  }

  // ----------------------------------------------------------------- progress

  // How many of its own steps a leader is away from closing its call.
  function Distance(pc: PC): nat {
    match pc
    case Parsing(_, _) => 4
    case Publishing(_, _, _) => 3
    case Filling(_, _, _) => 2
    case Failing(_, _, _) => 2
    case Closing(_, _) => 1
    case _ => 0
  }

  /** A leader can always take its next step, whatever the others do, and each one brings it closer
      to closing its call. */
  lemma LeaderCanStep(s: State, t: ThreadId) returns (s': State)
    requires Inv(s) && t in s.threads && Leading(s.threads[t])
    ensures Step(s, t, s') && t in s'.threads
    ensures s.threads[t].Deleting? || (Leading(s'.threads[t]) && Distance(s'.threads[t]) < Distance(s.threads[t]))
  {
    hide Inv;
    assert GoodLeader(s, t, s.threads[t]) by { LeaderIsGood(s, t); }
    var call := s.calls[s.threads[t].own];
    match s.threads[t] {
      case Parsing(name, c) =>
        var error := ParseError(0);
        s' := s.(threads := s.threads[t := Failing(name, c, error)]);
      case Publishing(name, c, obj) =>
        s' := s.(threads := s.threads[t := Filling(name, c, obj)], loadedFiles := s.loadedFiles[name := obj]);
      case Filling(name, c, obj) =>
        s' := s.(threads := s.threads[t := Closing(name, c)], calls := s.calls[c := call.(file := Some(obj))]);
      case Failing(name, c, error) =>
        s' := s.(threads := s.threads[t := Closing(name, c)], calls := s.calls[c := call.(err := Some(error))]);
      case Closing(name, c) =>
        s' := s.(threads := s.threads[t := Deleting(name, c)], calls := s.calls[c := call.(done := true)]);
      case Deleting(name, c) =>
        s' := s.(threads := s.threads[t := Returned(name, Some(c), call.file, call.err, false)],
                 loadingFiles := s.loadingFiles - {name});
    }
  }

  /** Every step of a leader leads closer to the close, whichever way it goes, and the steps of other
      threads leave the leader where it is. */
  lemma StepsBringClose(a: State, t: ThreadId, b: State, leader: ThreadId)
    requires Step(a, t, b) && leader in a.threads && Leading(a.threads[leader]) && !a.threads[leader].Deleting?
    ensures leader in b.threads && Leading(b.threads[leader])
    ensures t != leader ==> b.threads[leader] == a.threads[leader]
    ensures t == leader ==> Distance(b.threads[leader]) < Distance(a.threads[leader])
  {}

  /** No waiter is left stuck: the call it waits for is closed, or a leader is on its way to close it,
      and running that leader alone closes it within four steps. */
  lemma {:induction false} WaiterIsReleased(s: State, w: ThreadId) returns (run: seq<State>)
    requires Inv(s) && w in s.threads && s.threads[w].Waiting?
    ensures 1 <= |run| <= 5 && run[0] == s
    ensures var c := s.threads[w].on;
            && c in s.calls
            && (forall n :: 0 <= n < |run| - 1 ==> Step(run[n], s.calls[c].leader, run[n + 1]))
            && var last := run[|run| - 1];
            && Inv(last) && w in last.threads && last.threads[w] == s.threads[w]
            && c in last.calls && last.calls[c].done
  {
    hide GoodLoading;
    var c := s.threads[w].on;
    assert GoodThread(s, w, s.threads[w]);
    assert GoodCall(s, c, s.calls[c]);
    run := CloseCall(s, c, w);
  }

  /** And then the waiter can take the result: within one more step it has returned the file and the error
      that the call holds. */
  lemma WaiterReturns(s: State, w: ThreadId) returns (run: seq<State>)
    requires Inv(s) && w in s.threads && s.threads[w].Waiting?
    ensures 2 <= |run| <= 6 && run[0] == s
    ensures var c := s.threads[w].on;
            && c in s.calls
            && (forall n :: 0 <= n < |run| - 1 ==>
                  Step(run[n], if n < |run| - 2 then s.calls[c].leader else w, run[n + 1]))
            && var last := run[|run| - 1];
            && c in last.calls && last.calls[c].done && w in last.threads
            && last.threads[w] == Returned(s.threads[w].name, Some(c), last.calls[c].file, last.calls[c].err, false)
  {
    hide Inv, Step;
    var closing := WaiterIsReleased(s, w);
    var last := closing[|closing| - 1];
    var next := TakeResult(last, w);
    run := closing + [next];
  }

  lemma TakeResult(s: State, w: ThreadId) returns (s': State)
    requires w in s.threads && s.threads[w].Waiting?
    requires s.threads[w].on in s.calls && s.calls[s.threads[w].on].done
    ensures var (c, pc) := (s.threads[w].on, s.threads[w]);
            && Step(s, w, s') && s'.calls == s.calls
            && w in s'.threads
            && s'.threads[w] == Returned(pc.name, Some(c), s.calls[c].file, s.calls[c].err, false)
  {
    var c := s.threads[w].on;
    s' := s.(threads := s.threads[w := Returned(s.threads[w].name, Some(c), s.calls[c].file, s.calls[c].err, false)]);
  }

  lemma {:induction false} CloseCall(s: State, c: CallId, w: ThreadId) returns (run: seq<State>)
    requires Inv(s) && c in s.calls && w in s.threads && s.threads[w].Waiting?
    ensures 1 <= |run| && run[0] == s
    ensures s.calls[c].done || |run| <= Distance(s.threads[s.calls[c].leader]) + 1
    ensures s.calls[c].done ==> |run| == 1
    ensures forall n :: 0 <= n < |run| - 1 ==> Step(run[n], s.calls[c].leader, run[n + 1])
    ensures var last := run[|run| - 1];
            Inv(last) && w in last.threads && last.threads[w] == s.threads[w] && c in last.calls && last.calls[c].done
    decreases if s.calls[c].done then 0 else 1 + Distance(s.threads[s.calls[c].leader])
  {
    hide Inv, Step, Lead, GoodThread, GoodLeader;
    CallIsGood(s, c);
    if s.calls[c].done {
      run := [s];
    } else {
      var t := s.calls[c].leader;
      var s' := LeaderCanStep(s, t);
      StepKeepsInv(s, t, s');
      LeadKeepsCall(s, t, s', c, w);
      CallIsGood(s', c);
      var rest := CloseCall(s', c, w);
      run := [s] + rest;
    }
  }

  lemma CallIsGood(s: State, c: CallId)
    requires Inv(s) && c in s.calls
    ensures GoodCall(s, c, s.calls[c])
  {}

  lemma LeadKeepsCall(a: State, t: ThreadId, b: State, c: CallId, w: ThreadId)
    requires Step(a, t, b) && c in a.calls && t in a.threads && Leading(a.threads[t])
    requires w in a.threads && a.threads[w].Waiting?
    ensures c in b.calls && b.calls[c].leader == a.calls[c].leader
    ensures w in b.threads && b.threads[w] == a.threads[w]
  {}
}
