/** The language-server client: any number of concurrent requests and one reader that hands each
    response to the request that waits for it. Each step is one critical section under pendingMu,
    one channel operation, one write, or one message read; the reader holds pendingMu all through
    failAll. A request's channel is named by the request's thread. */
module Multiplexer {
  import opened Bytes

  type ThreadId = nat

  // id is the number in the server's message, a JSON number that need not be an integer.
  datatype Message = Response(id: real, payload: nat) | Failed

  datatype Outcome = Answer(msg: Message) | WriteFailed | Cancelled | ClosedPipe

  datatype PC =
    | Starting                        // about to take an id
    | HasId                           // about to register its channel
    | Registered                      // about to write the request
    | Selecting                       // waiting for the channel, the context or the reader's end
    | Unregistering(reason: Outcome)  // about to delete its entry
    | Done(result: Outcome)

  datatype Request = Request(id: nat, pc: PC)

  datatype Reader =
    | Reading
    | Delivering(ch: ThreadId, msg: Message)
    | FailingAll
    | FailSending(ch: ThreadId)
    | Closing
    | Exited

  datatype State = State(
    nextID: nat,
    requests: map<ThreadId, Request>,
    pending: map<nat, ThreadId>,
    chans: map<ThreadId, seq<Message>>,   // capacity 1
    sent: map<ThreadId, nat>,             // how often each channel was sent to
    reader: Reader,
    closed: bool)

  /** Go's conversion of a float to an integer. */
  function Truncate(x: real): int {
    if x >= 0.0 then x.Floor else -((-x).Floor)
  }

  ghost predicate Init(s: State) { s == State(0, map[], map[], map[], map[], Reading, false) }

  predicate LockHeld(s: State) { s.reader.FailingAll? || s.reader.FailSending? }

  // ------------------------------------------------------------------- steps

  ghost predicate Start(a: State, t: ThreadId, b: State) {
    && t !in a.requests
    && b == a.(requests := a.requests[t := Request(0, Starting)],
               chans := a.chans[t := []], sent := a.sent[t := 0])
  }

  function Move(s: State, t: ThreadId, pc: PC): State
    requires t in s.requests
  {
    s.(requests := s.requests[t := s.requests[t].(pc := pc)])
  }

  ghost predicate RequestStep(a: State, t: ThreadId, b: State)
    requires t in a.requests
  {
    var id := a.requests[t].id;
    match a.requests[t].pc
    case Starting =>
      b == a.(nextID := a.nextID + 1, requests := a.requests[t := Request(a.nextID + 1, HasId)])
    case HasId =>
      !LockHeld(a) && b == Move(a, t, Registered).(pending := a.pending[id := t])
    case Registered =>
      b == Move(a, t, Selecting) || b == Move(a, t, Unregistering(WriteFailed))
    case Selecting =>
      || (t in a.chans && a.chans[t] != []
          && b == Move(a, t, Done(Answer(a.chans[t][0]))).(chans := a.chans[t := a.chans[t][1..]]))
      || b == Move(a, t, Unregistering(Cancelled))
      || (a.closed && b == Move(a, t, Done(ClosedPipe)))
    case Unregistering(reason) =>
      !LockHeld(a) && b == Move(a, t, Done(reason)).(pending := a.pending - {id})
    case Done(_) => false
  }

  function Send(s: State, ch: ThreadId, msg: Message, reader: Reader): State
    requires ch in s.chans && ch in s.sent
  {
    s.(chans := s.chans[ch := s.chans[ch] + [msg]], sent := s.sent[ch := s.sent[ch] + 1], reader := reader)
  }

  /** Messages with no numeric id and requests of the server leave the state as it is. */
  ghost predicate Receive(a: State, msg: Message, b: State)
    requires a.reader.Reading? && msg.Response?
  {
    var id := Truncate(msg.id);
    if id in a.pending then
      b == a.(pending := a.pending - {id}, reader := Delivering(a.pending[id], msg))
    else
      b == a
  }

  /** The reader reads a message of the server. */
  ghost predicate ReadStep(a: State, msg: Message, b: State) {
    a.reader.Reading? && msg.Response? && Receive(a, msg, b)
  }

  ghost predicate ReaderStep(a: State, b: State) {
    (exists msg: Message :: ReadStep(a, msg, b)) || QuietReaderStep(a, b)
  }

  /** The reader's steps that read no message. */
  ghost predicate QuietReaderStep(a: State, b: State) {
    match a.reader
    case Reading => b == a.(reader := FailingAll)
    case Delivering(ch, msg) =>
      && ch in a.chans && ch in a.sent
      && |a.chans[ch]| < 1  // a send to a full channel blocks
      && b == Send(a, ch, msg, Reading)
    case FailingAll =>
      if a.pending == map[] then b == a.(reader := Closing)
      else exists id :: id in a.pending && b == a.(pending := a.pending - {id}, reader := FailSending(a.pending[id]))
    case FailSending(ch) =>
      && ch in a.chans && ch in a.sent && |a.chans[ch]| < 1
      && b == Send(a, ch, Failed, FailingAll)
    case Closing =>
      b == a.(closed := true, reader := Exited)
    case Exited => false
  }

  ghost predicate Step(a: State, b: State) {
    || (exists t :: Start(a, t, b))
    || (exists t :: t in a.requests && RequestStep(a, t, b))
    || ReaderStep(a, b)
  }

  // --------------------------------------------------------------- invariant

  predicate HasNumber(pc: PC) { !pc.Starting? }

  ghost predicate Unsent(s: State, t: ThreadId) {
    t in s.chans && s.chans[t] == [] && t in s.sent && s.sent[t] == 0
  }

  ghost predicate Bears(msg: Message, id: nat) { msg.Response? ==> Truncate(msg.id) == id }

  ghost predicate GoodRequest(s: State, t: ThreadId) {
    && t in s.requests
    && t in s.chans && t in s.sent
    && var r := s.requests[t];
    && (HasNumber(r.pc) ==> r.id <= s.nextID)
    && |s.chans[t]| <= s.sent[t] <= 1
    && (forall m | m in s.chans[t] :: Bears(m, r.id))
    && (r.pc.Starting? || r.pc.HasId? ==> Unsent(s, t))
    && (r.pc.Done? && r.pc.result.Answer? ==> Bears(r.pc.result.msg, r.id) && s.sent[t] == 1)
    && (r.pc.Unregistering? ==> !r.pc.reason.Answer?)
  }

  ghost predicate DistinctIds(s: State) {
    forall t, u | t in s.requests && u in s.requests && t != u
      && HasNumber(s.requests[t].pc) && HasNumber(s.requests[u].pc) ::
      s.requests[t].id != s.requests[u].id
  }

  ghost predicate GoodPending(s: State, id: nat)
    requires id in s.pending
  {
    var t := s.pending[id];
    && t in s.requests && s.requests[t].id == id
    && HasNumber(s.requests[t].pc) && !s.requests[t].pc.HasId?
    && Unsent(s, t)
  }

  /** The channel the reader is about to send to is empty, was never sent to, and is no longer pending. */
  ghost predicate GoodTarget(s: State, ch: ThreadId) {
    && ch in s.requests && HasNumber(s.requests[ch].pc) && !s.requests[ch].pc.HasId?
    && Unsent(s, ch)
    && s.requests[ch].id !in s.pending
  }

  ghost predicate GoodReader(s: State) {
    match s.reader
    case Delivering(ch, msg) => GoodTarget(s, ch) && Bears(msg, s.requests[ch].id)
    case FailSending(ch) => GoodTarget(s, ch)
    case Exited => s.closed
    case _ => true
  }

  ghost predicate Inv(s: State) {
    && (forall t | t in s.requests :: GoodRequest(s, t))
    && DistinctIds(s)
    && (forall id | id in s.pending :: GoodPending(s, id))
    && GoodReader(s)
  }

  lemma InitInv(s: State)
    requires Init(s)
    ensures Inv(s)
  {}

  lemma StartKeepsInv(a: State, t: ThreadId, b: State)
    requires Inv(a) && Start(a, t, b)
    ensures Inv(b)
  {
    forall u | u in b.requests ensures GoodRequest(b, u) {
      hide GoodPending, GoodReader, DistinctIds;
      assert u in a.requests ==> GoodRequest(a, u);
    }
    forall id | id in b.pending ensures GoodPending(b, id) {
      hide GoodRequest, GoodReader, DistinctIds;
      assert GoodPending(a, id);
    }
    assert DistinctIds(b) by { hide GoodRequest, GoodPending, GoodReader; }
    assert GoodReader(b) by { hide GoodPending, GoodRequest; }
  }

  lemma StartingKeepsInv(a: State, t: ThreadId, b: State)
    requires Inv(a) && t in a.requests && a.requests[t].pc.Starting? && RequestStep(a, t, b)
    ensures Inv(b)
  {
    assert GoodRequest(a, t);
  }

  lemma RegisterKeepsInv(a: State, t: ThreadId)
    requires Inv(a) && t in a.requests && a.requests[t].pc.HasId?
    ensures Inv(Move(a, t, Registered).(pending := a.pending[a.requests[t].id := t]))
  {
    var b := Move(a, t, Registered).(pending := a.pending[a.requests[t].id := t]);
    assert GoodRequest(a, t);
    forall u | u in b.requests ensures GoodRequest(b, u) {
      hide GoodPending, GoodReader, DistinctIds;
      assert GoodRequest(a, u);
    }
    forall id | id in b.pending ensures GoodPending(b, id) {
      hide GoodRequest, GoodReader, DistinctIds;
      assert id in a.pending ==> GoodPending(a, id);
    }
    assert DistinctIds(b) by { hide GoodRequest, GoodPending, GoodReader; }
    assert GoodReader(b) by { hide GoodPending, GoodRequest; }
  }

  lemma HasIdKeepsInv(a: State, t: ThreadId, b: State)
    requires Inv(a) && t in a.requests && a.requests[t].pc.HasId? && RequestStep(a, t, b)
    ensures Inv(b)
  {
    hide Inv;
    RegisterKeepsInv(a, t);
  }

  /** A request that moves on without touching the maps or taking an answer keeps the invariant. */
  lemma MoveKeepsInv(a: State, t: ThreadId, pc: PC)
    requires Inv(a) && t in a.requests
    requires !a.requests[t].pc.Starting? && !a.requests[t].pc.HasId?
    requires pc.Selecting? || (pc.Unregistering? && !pc.reason.Answer?) || (pc.Done? && !pc.result.Answer?)
    ensures Inv(Move(a, t, pc))
  {
    assert GoodRequest(a, t);
  }

  lemma RegisteredKeepsInv(a: State, t: ThreadId, b: State)
    requires Inv(a) && t in a.requests && a.requests[t].pc.Registered? && RequestStep(a, t, b)
    ensures Inv(b)
  {
    hide Inv;
    MoveKeepsInv(a, t, if b == Move(a, t, Selecting) then Selecting else Unregistering(WriteFailed));
  }

  lemma TakeAnswerKeepsInv(a: State, t: ThreadId)
    requires Inv(a) && t in a.requests && a.requests[t].pc.Selecting? && t in a.chans && a.chans[t] != []
    ensures Inv(Move(a, t, Done(Answer(a.chans[t][0]))).(chans := a.chans[t := a.chans[t][1..]]))
  {
    assert GoodRequest(a, t);
    assert a.chans[t][0] in a.chans[t];
  }

  lemma SelectingKeepsInv(a: State, t: ThreadId, b: State)
    requires Inv(a) && t in a.requests && a.requests[t].pc.Selecting? && RequestStep(a, t, b)
    ensures Inv(b)
  {
    hide Inv;
    if b == Move(a, t, Unregistering(Cancelled)) {
      MoveKeepsInv(a, t, Unregistering(Cancelled));
    } else if b == Move(a, t, Done(ClosedPipe)) {
      MoveKeepsInv(a, t, Done(ClosedPipe));
    } else {
      TakeAnswerKeepsInv(a, t);
    }
  }

  lemma UnregisteringKeepsInv(a: State, t: ThreadId, b: State)
    requires Inv(a) && t in a.requests && a.requests[t].pc.Unregistering? && RequestStep(a, t, b)
    ensures Inv(b)
  {
    forall u | u in b.requests ensures GoodRequest(b, u) {
      hide GoodPending, GoodReader, DistinctIds;
      assert GoodRequest(a, u);
    }
    forall id | id in b.pending ensures GoodPending(b, id) {
      hide GoodRequest, GoodReader, DistinctIds;
      assert GoodPending(a, id);
    }
    assert DistinctIds(b) by { hide GoodRequest, GoodPending, GoodReader; }
    assert GoodReader(b) by { hide GoodPending, GoodRequest; }
  }

  /** An entry that is taken out of the map hands its channel to the reader. */
  lemma PopKeepsInv(a: State, id: nat, reader: Reader)
    requires Inv(a) && id in a.pending
    requires || reader == FailSending(a.pending[id])
             || (reader.Delivering? && reader.ch == a.pending[id] && Bears(reader.msg, id))
    ensures Inv(a.(pending := a.pending - {id}, reader := reader))
  {
    var b := a.(pending := a.pending - {id}, reader := reader);
    assert GoodPending(a, id);
    forall u | u in b.requests ensures GoodRequest(b, u) {
      hide GoodPending, GoodReader, DistinctIds;
      assert GoodRequest(a, u);
    }
    assert GoodReader(b) by { hide GoodRequest, DistinctIds; }
  }

  lemma IdleReaderKeepsInv(a: State, reader: Reader)
    requires Inv(a) && (reader.FailingAll? || reader.Closing?)
    ensures Inv(a.(reader := reader))
  {}

  lemma ReadingKeepsInv(a: State, b: State)
    requires Inv(a) && a.reader.Reading? && ReaderStep(a, b)
    ensures Inv(b)
  {
    hide Inv, Truncate;
    if msg: Message :| ReadStep(a, msg, b) {
      if Truncate(msg.id) in a.pending {
        PopKeepsInv(a, Truncate(msg.id), Delivering(a.pending[Truncate(msg.id)], msg));
      }
    } else {
      IdleReaderKeepsInv(a, FailingAll);
    }
  }

  lemma DeliveringKeepsInv(a: State, b: State)
    requires Inv(a) && a.reader.Delivering? && ReaderStep(a, b)
    ensures Inv(b)
  {}

  lemma FailingAllKeepsInv(a: State, b: State)
    requires Inv(a) && a.reader.FailingAll? && ReaderStep(a, b)
    ensures Inv(b)
  {
    hide Inv;
    if a.pending == map[] {
      IdleReaderKeepsInv(a, Closing);
    } else {
      var id :| id in a.pending && b == a.(pending := a.pending - {id}, reader := FailSending(a.pending[id]));
      PopKeepsInv(a, id, FailSending(a.pending[id]));
    }
  }

  lemma FailSendingKeepsInv(a: State, b: State)
    requires Inv(a) && a.reader.FailSending? && ReaderStep(a, b)
    ensures Inv(b)
  {}

  lemma StepKeepsInv(a: State, b: State)
    requires Inv(a) && Step(a, b)
    ensures Inv(b)
  {
    hide Inv, Start, RequestStep, ReaderStep;
    if t :| Start(a, t, b) {
      StartKeepsInv(a, t, b);
    } else if t :| t in a.requests && RequestStep(a, t, b) {
      RequestKeepsInv(a, t, b);
    } else {
      ReaderKeepsInv(a, b);
    }
  }

  lemma RequestKeepsInv(a: State, t: ThreadId, b: State)
    requires Inv(a) && t in a.requests && RequestStep(a, t, b)
    ensures Inv(b)
  {
    hide Inv, RequestStep;
    match a.requests[t].pc {
      case Starting => StartingKeepsInv(a, t, b);
      case HasId => HasIdKeepsInv(a, t, b);
      case Registered => RegisteredKeepsInv(a, t, b);
      case Selecting => SelectingKeepsInv(a, t, b);
      case Unregistering(_) => UnregisteringKeepsInv(a, t, b);
      case Done(_) => NothingAfterDone(a, t, b);
    }
  }

  lemma NothingAfterDone(a: State, t: ThreadId, b: State)
    requires t in a.requests && a.requests[t].pc.Done?
    ensures !RequestStep(a, t, b)
  {}

  lemma ReaderKeepsInv(a: State, b: State)
    requires Inv(a) && ReaderStep(a, b)
    ensures Inv(b)
  {
    hide Inv, ReaderStep;
    match a.reader {
      case Reading => ReadingKeepsInv(a, b);
      case Delivering(_, _) => DeliveringKeepsInv(a, b);
      case FailingAll => FailingAllKeepsInv(a, b);
      case FailSending(_) => FailSendingKeepsInv(a, b);
      case _ => ReaderEnds(a, b);
    }
  }

  lemma ReaderEnds(a: State, b: State)
    requires Inv(a) && (a.reader.Closing? || a.reader.Exited?) && ReaderStep(a, b)
    ensures Inv(b)
  {}

  // ------------------------------------------------------------------- safety

  /** A channel is sent to at most once, and the reader never blocks on a send. */
  lemma ReaderNeverBlocks(s: State) returns (s': State)
    requires Inv(s) && (s.reader.Delivering? || s.reader.FailSending?)
    ensures ReaderStep(s, s')
    ensures forall t | t in s.requests :: t in s.sent && s.sent[t] <= 1
  {
    hide GoodPending, DistinctIds;
    forall t | t in s.requests ensures t in s.sent && s.sent[t] <= 1 {
      assert GoodRequest(s, t);
    }
    match s.reader {
      case Delivering(ch, msg) => s' := Send(s, ch, msg, Reading);
      case FailSending(ch) => s' := Send(s, ch, Failed, FailingAll);
    }
  }

  ghost predicate IsRun(run: seq<State>) {
    && run != [] && Init(run[0])
    && forall k :: 0 <= k < |run| - 1 ==> Step(run[k], run[k + 1])
  }

  lemma {:induction false} RunKeepsInv(run: seq<State>, k: nat)
    requires IsRun(run) && k < |run|
    ensures Inv(run[k])
  {
    hide Inv, Init, Step;
    if k == 0 {
      InitInv(run[0]);
    } else {
      RunKeepsInv(run, k - 1);
      assert Step(run[k - 1], run[k - 1 + 1]);
      StepKeepsInv(run[k - 1], run[k]);
    }
  }

  /** In every run, whatever ids the server sends: a request that returns a server's message got the
      one that bears its own id, and no channel was sent to twice. */
  lemma OwnAnswer(run: seq<State>, k: nat, t: ThreadId)
    requires IsRun(run) && k < |run| && t in run[k].requests
    ensures t in run[k].sent && run[k].sent[t] <= 1
    ensures var r := run[k].requests[t];
            r.pc.Done? && r.pc.result.Answer? && r.pc.result.msg.Response? ==>
              Truncate(r.pc.result.msg.id) == r.id
  {
    hide Init, Step, GoodPending, GoodReader, DistinctIds;
    RunKeepsInv(run, k);
    assert GoodRequest(run[k], t);
  }

  /** The message a request returns bears the request's own id exactly when its id is integral, as
      JSON-RPC asks for. */
  lemma OwnIdExactly(run: seq<State>, k: nat, t: ThreadId)
    requires IsRun(run) && k < |run| && t in run[k].requests
    ensures var r := run[k].requests[t];
            r.pc.Done? && r.pc.result.Answer? && r.pc.result.msg.Response? ==>
              var id := r.pc.result.msg.id;
              id == r.id as real <==> id.Floor as real == id
  {
    hide IsRun, Truncate;
    OwnAnswer(run, k, t);
    var r := run[k].requests[t];
    if r.pc.Done? && r.pc.result.Answer? && r.pc.result.msg.Response? {
      TruncatesToItself(r.pc.result.msg.id, r.id);
    }
  }

  lemma TruncatesToItself(x: real, n: nat)
    requires Truncate(x) == n
    ensures x == n as real <==> x.Floor as real == x
  {
    assert (-x.Floor) as real == -(x.Floor as real);
  }

  // One request that waits for its answer, with id 1.
  lemma FirstWaits() returns (run: seq<State>)
    ensures IsRun(run)
    ensures run[|run| - 1] ==
            State(1, map[0 := Request(1, Selecting)], map[1 := 0], map[0 := []], map[0 := 0], Reading, false)
  {
    var s0 := State(0, map[], map[], map[], map[], Reading, false);
    var s1 := s0.(requests := map[0 := Request(0, Starting)], chans := map[0 := []], sent := map[0 := 0]);
    var s2 := s1.(nextID := 1, requests := map[0 := Request(1, HasId)]);
    var s3 := Move(s2, 0, Registered).(pending := map[1 := 0]);
    var s4 := Move(s3, 0, Selecting);
    run := [s0, s1, s2, s3, s4];
    assert Step(s0, s1) by { assert Start(s0, 0, s1); }
    assert Step(s1, s2) by { assert RequestStep(s1, 0, s2); }
    assert Step(s2, s3) by { assert RequestStep(s2, 0, s3); }
    assert Step(s3, s4) by { assert RequestStep(s3, 0, s4); }
  }

  /** A run in which the first request returns a message with id 1.5. */
  lemma FractionalAnswer(payload: nat) returns (run: seq<State>)
    ensures IsRun(run)
    ensures var last := run[|run| - 1];
            0 in last.requests && last.requests[0] == Request(1, Done(Answer(Response(1.5, payload))))
  {
    run := FirstWaits();
    var msg := Response(1.5, payload);
    assert Truncate(1.5) == 1 by { assert (1.5).Floor == 1; }
    var s4 := run[|run| - 1];
    var s5 := s4.(pending := s4.pending - {1}, reader := Delivering(0, msg));
    var s6 := Send(s5, 0, msg, Reading);
    var s7 := Move(s6, 0, Done(Answer(msg))).(chans := s6.chans[0 := s6.chans[0][1..]]);
    assert Step(s4, s5) by { assert ReadStep(s4, msg, s5); }
    assert Step(s5, s6) by { assert ReaderStep(s5, s6); }
    assert Step(s6, s7) by { assert RequestStep(s6, 0, s7); }
    run := run + [s5, s6, s7];
  }

  // ----------------------------------------------------------------- progress

  // How many steps of its own a request still needs once the reader has exited.
  function Distance(pc: PC): nat {
    match pc
    case Starting => 4
    case HasId => 3
    case Registered => 2
    case Selecting => 1
    case Unregistering(_) => 1
    case Done(_) => 0
  }

  /** Once the reader has exited, every request that has not returned, begun before or after, has a
      step to take that brings it closer to its return. */
  lemma RequestCanReturn(s: State, t: ThreadId) returns (s': State)
    requires Inv(s) && s.reader.Exited? && t in s.requests && !s.requests[t].pc.Done?
    ensures RequestStep(s, t, s') && s'.reader.Exited?
    ensures t in s'.requests && Distance(s'.requests[t].pc) < Distance(s.requests[t].pc)
  {
    hide GoodPending, GoodRequest, DistinctIds;
    var id := s.requests[t].id;
    match s.requests[t].pc {
      case Starting => s' := s.(nextID := s.nextID + 1, requests := s.requests[t := Request(s.nextID + 1, HasId)]);
      case HasId => s' := Move(s, t, Registered).(pending := s.pending[id := t]);
      case Registered => s' := Move(s, t, Selecting);
      case Selecting => s' := Move(s, t, Done(ClosedPipe));
      case Unregistering(reason) => s' := Move(s, t, Done(reason)).(pending := s.pending - {id});
    }
  }

  /** So it returns within four steps of its own. */
  lemma {:induction false} RequestReturns(s: State, t: ThreadId) returns (run: seq<State>)
    requires Inv(s) && s.reader.Exited? && t in s.requests
    ensures 1 <= |run| <= Distance(s.requests[t].pc) + 1 && run[0] == s
    ensures forall k :: 0 <= k < |run| - 1 ==> t in run[k].requests && RequestStep(run[k], t, run[k + 1])
    ensures var last := run[|run| - 1]; t in last.requests && last.requests[t].pc.Done?
    decreases Distance(s.requests[t].pc)
  {
    hide Inv, RequestStep, Start, ReaderStep;
    if s.requests[t].pc.Done? {
      run := [s];
    } else {
      var s' := RequestCanReturn(s, t);
      assert Step(s, s');
      StepKeepsInv(s, s');
      var rest := RequestReturns(s', t);
      run := [s] + rest;
    }
  }

  // failAll has as many steps left as there are entries to fail and sends to make.
  function ReaderDistance(s: State): nat {
    match s.reader
    case FailingAll => 2 * |s.pending| + 2
    case FailSending(_) => 2 * |s.pending| + 3
    case Closing => 1
    case _ => 0
  }

  /** After a read error the reader fails every pending request and exits: no step of it ever blocks,
      and while it holds the mutex nobody can add to its work. */
  lemma FailAllCanStep(s: State) returns (s': State)
    requires Inv(s) && (LockHeld(s) || s.reader.Closing?)
    ensures ReaderStep(s, s') && ReaderDistance(s') < ReaderDistance(s)
    ensures LockHeld(s') || s'.reader.Closing? || s'.reader.Exited?
  {
    hide Inv, ReadStep;
    ReaderIsGood(s);
    match s.reader {
      case FailingAll =>
        if s.pending == map[] {
          s' := s.(reader := Closing);
        } else {
          s' := FailNext(s);
        }
      case FailSending(ch) => s' := Send(s, ch, Failed, FailingAll);
      case Closing => s' := s.(closed := true, reader := Exited);
    }
  }

  lemma FailNext(s: State) returns (s': State)
    requires s.reader.FailingAll? && s.pending != map[]
    ensures ReaderStep(s, s') && s'.reader.FailSending? && |s'.pending| == |s.pending| - 1
  {
    hide Send, Receive;
    var id :| id in s.pending;
    s' := s.(pending := s.pending - {id}, reader := FailSending(s.pending[id]));
    RemoveOne(s.pending, id);
  }

  lemma ReaderIsGood(s: State)
    requires Inv(s)
    ensures GoodReader(s)
  {}

  lemma RemoveOne(m: map<nat, ThreadId>, id: nat)
    requires id in m
    ensures |m - {id}| == |m| - 1
  {
    assert (m - {id}).Keys == m.Keys - {id};
    assert |m.Keys - {id}| == |m.Keys| - 1;
  }

  /** Nobody can undo that progress: from the read error on, every step of the reader brings it nearer
      to its exit, and no step of a request takes it away from there. */
  lemma FailAllProgress(a: State, b: State)
    requires (LockHeld(a) || a.reader.Closing?) && Step(a, b)
    ensures ReaderDistance(b) <= ReaderDistance(a)
    ensures ReaderStep(a, b) ==> ReaderDistance(b) < ReaderDistance(a)
    ensures LockHeld(b) || b.reader.Closing? || b.reader.Exited?
  {
    if ReaderStep(a, b) {
      ReaderGetsNearer(a, b);
    } else if t :| Start(a, t, b) {
    } else {
      var t :| t in a.requests && RequestStep(a, t, b);
      if LockHeld(a) {
        LockProtectsPending(a, t, b);
      }
    }
  }

  lemma ReaderGetsNearer(a: State, b: State)
    requires (LockHeld(a) || a.reader.Closing?) && ReaderStep(a, b)
    ensures ReaderDistance(b) < ReaderDistance(a)
    ensures LockHeld(b) || b.reader.Closing? || b.reader.Exited?
  {
    hide Receive;
    if a.reader.FailingAll? && a.pending != map[] {
      var id :| id in a.pending && b == a.(pending := a.pending - {id}, reader := FailSending(a.pending[id]));
      RemoveOne(a.pending, id);
    }
  }

  /** While the reader holds the mutex, no step of a request grows the pending map. */
  lemma LockProtectsPending(a: State, t: ThreadId, b: State)
    requires LockHeld(a) && t in a.requests && RequestStep(a, t, b)
    ensures b.pending == a.pending && b.reader == a.reader
  {}
}
