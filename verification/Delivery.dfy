/** Which messages reach which requests: a run of the client together with the list of the messages it
    receives from the server, one for each step that reads one. */
module Delivery {
  import opened Bytes
  import opened Multiplexer

  datatype Label = Received(msg: Message) | Quiet

  ghost predicate Labelled(a: State, label0: Label, b: State) {
    match label0
    case Received(msg) => ReadStep(a, msg, b)
    case Quiet =>
      || (exists t :: Start(a, t, b))
      || (exists t :: t in a.requests && RequestStep(a, t, b))
      || QuietReaderStep(a, b)
  }

  ghost predicate IsLabelledRun(run: seq<State>, labels: seq<Label>) {
    && |run| == |labels| + 1 && Init(run[0])
    && forall k :: 0 <= k < |labels| ==> Labelled(run[k], labels[k], run[k + 1])
  }

  lemma LabelledIsStep(a: State, l: Label, b: State)
    requires Labelled(a, l, b)
    ensures Step(a, b)
  {
    hide Start, RequestStep, QuietReaderStep, ReadStep;
    if l.Received? {
      assert ReadStep(a, l.msg, b);
      assert ReaderStep(a, b);
    }
  }

  lemma {:induction false} LabelledRunKeepsInv(run: seq<State>, labels: seq<Label>, n: nat)
    requires IsLabelledRun(run, labels) && n < |run|
    ensures Inv(run[n])
  {
    hide Init, Inv, Step, Labelled;
    if n == 0 {
      InitInv(run[0]);
    } else {
      LabelledRunKeepsInv(run, labels, n - 1);
      assert Labelled(run[n - 1], labels[n - 1], run[n - 1 + 1]);
      LabelledIsStep(run[n - 1], labels[n - 1], run[n]);
      StepKeepsInv(run[n - 1], run[n]);
    }
  }

  lemma RunPrefix(run: seq<State>, n: nat)
    requires IsRun(run) && 0 < n <= |run|
    ensures IsRun(run[..n])
  {
    hide Step, Init;
  }

  /** Every run is one of a list of received messages. */
  lemma {:induction false} RunHasLabels(run: seq<State>) returns (labels: seq<Label>)
    requires IsRun(run)
    ensures IsLabelledRun(run, labels)
  {
    hide Init, Start, RequestStep, QuietReaderStep, ReadStep;
    if |run| == 1 {
      labels := [];
    } else {
      var n := |run| - 2;
      var a, b := run[n], run[n + 1];
      assert Step(a, run[n + 1]);
      RunPrefix(run, n + 1);
      labels := RunHasLabels(run[..n + 1]);
      var last: Label := Quiet;
      if msg: Message :| ReadStep(a, msg, b) {
        last := Received(msg);
      }
      assert Labelled(a, last, b);
      labels := labels + [last];
    }
  }

  // ------------------------------------------------------- from the reader to the request

  /** The message is on its way to the request, waits in its channel, or is what it returned. */
  ghost predicate Holds(s: State, t: ThreadId, msg: Message) {
    && t in s.requests && msg.Response?
    && (|| s.reader == Delivering(t, msg)
        || (t in s.chans && msg in s.chans[t])
        || s.requests[t].pc == Done(Answer(msg)))
  }

  // A request's step leaves the reader alone, and the entries of other requests.
  lemma RequestFrame(a: State, u: ThreadId, b: State)
    requires u in a.requests && RequestStep(a, u, b)
    ensures u in b.requests && b.requests == a.requests[u := b.requests[u]]
  {}

  lemma RequestFrameChans(a: State, u: ThreadId, b: State)
    requires u in a.requests && RequestStep(a, u, b)
    ensures b.reader == a.reader && b.sent == a.sent
    ensures b.chans == a.chans || (u in b.chans && b.chans == a.chans[u := b.chans[u]])
  {}

  lemma RequestFramePending(a: State, u: ThreadId, b: State, id: nat)
    requires u in a.requests && RequestStep(a, u, b) && (HasNumber(a.requests[u].pc) ==> id != a.requests[u].id)
    ensures id in a.pending ==> id in b.pending && b.pending[id] == a.pending[id]
  {}

  lemma RequestKeepsHeld(a: State, u: ThreadId, b: State, t: ThreadId, msg: Message)
    requires Inv(a) && u in a.requests && RequestStep(a, u, b)
    ensures Holds(b, t, msg) <==> Holds(a, t, msg)
  {
    if t != u {
      RequestFrame(a, u, b);
      RequestFrameChans(a, u, b);
      hide Inv, RequestStep;
    } else {
      assert GoodRequest(a, u);
      OwnStepKeepsHeld(a, u, b, msg);
    }
  }

  lemma OwnStepKeepsHeld(a: State, t: ThreadId, b: State, msg: Message)
    requires t in a.requests && RequestStep(a, t, b)
    requires t in a.chans && |a.chans[t]| <= 1
    requires a.requests[t].pc.Unregistering? ==> !a.requests[t].pc.reason.Answer?
    ensures Holds(b, t, msg) <==> Holds(a, t, msg)
  {}

  lemma StartKeepsHeld(a: State, u: ThreadId, b: State, t: ThreadId, msg: Message)
    requires Inv(a) && Start(a, u, b)
    ensures Holds(b, t, msg) <==> Holds(a, t, msg)
  {
    assert GoodReader(a);
    hide Inv;
  }

  lemma QuietReaderKeepsHeld(a: State, b: State, t: ThreadId, msg: Message)
    requires QuietReaderStep(a, b)
    ensures Holds(b, t, msg) <==> Holds(a, t, msg)
  {}

  lemma QuietKeepsHeld(a: State, b: State, t: ThreadId, msg: Message)
    requires Inv(a) && Labelled(a, Quiet, b)
    ensures Holds(b, t, msg) <==> Holds(a, t, msg)
  {
    hide Inv, Start, RequestStep, QuietReaderStep, Holds;
    if u :| Start(a, u, b) {
      StartKeepsHeld(a, u, b, t, msg);
    } else if u :| u in a.requests && RequestStep(a, u, b) {
      RequestKeepsHeld(a, u, b, t, msg);
    } else {
      QuietReaderKeepsHeld(a, b, t, msg);
    }
  }

  /** No message has been sent to the request, or is about to be. */
  ghost predicate HoldsNone(s: State, t: ThreadId) { forall m :: !Holds(s, t, m) }

  /** A message that is read goes to one request that held none, or to nobody. */
  lemma ReadingHands(a: State, msg: Message, b: State) returns (to: Option<ThreadId>)
    requires Inv(a) && ReadStep(a, msg, b)
    ensures to.Some? ==> to.value in a.requests && HoldsNone(a, to.value)
    ensures forall t: ThreadId, m :: Holds(b, t, m) <==> Holds(a, t, m) || (to == Some(t) && m == msg)
  {
    var id := Truncate(msg.id);
    if id in a.pending {
      to := Some(a.pending[id]);
      PendingHoldsNone(a, id);
      assert b == a.(pending := a.pending - {id}, reader := Delivering(a.pending[id], msg));
      hide Inv, HoldsNone, ReadStep, Truncate;
    } else {
      to := None;
      assert b == a;
      hide *;
    }
  }

  lemma PendingHoldsNone(s: State, id: nat)
    requires Inv(s) && id in s.pending && s.reader.Reading?
    ensures s.pending[id] in s.requests && HoldsNone(s, s.pending[id])
  {
    assert GoodPending(s, id);
    assert GoodRequest(s, s.pending[id]);
    hide Inv;
  }

  // ------------------------------------------------------------------ what requests return

  /** The steps at which the messages that requests hold were read: whole and unchanged, and no step
      stands for two requests. */
  ghost predicate IsSource(s: State, labels: seq<Label>, n: nat, source: map<ThreadId, nat>) {
    && n <= |labels|
    && (forall t, m | Holds(s, t, m) :: t in source && source[t] < n && labels[source[t]] == Received(m))
    && (forall t | t in source :: source[t] < n)
    && forall t, u | t in source && u in source && source[t] == source[u] :: t == u
  }

  lemma SourceStep(a: State, b: State, labels: seq<Label>, n: nat, source: map<ThreadId, nat>)
    returns (source': map<ThreadId, nat>)
    requires n < |labels| && Inv(a) && Labelled(a, labels[n], b) && IsSource(a, labels, n, source)
    ensures IsSource(b, labels, n + 1, source')
  {
    hide Inv, Holds, ReadStep;
    match labels[n] {
      case Quiet =>
        source' := source;
        forall t, m | Holds(b, t, m) ensures Holds(a, t, m) {
          QuietKeepsHeld(a, b, t, m);
        }
      case Received(msg) =>
        var to := ReadingHands(a, msg, b);
        source' := if to.Some? then source[to.value := n] else source;
    }
  }

  lemma {:induction false} SourceExists(run: seq<State>, labels: seq<Label>, n: nat)
    returns (source: map<ThreadId, nat>)
    requires IsLabelledRun(run, labels) && n < |run|
    ensures IsSource(run[n], labels, n, source)
  {
    hide Init, Inv, Labelled, IsSource;
    if n == 0 {
      source := map[];
      NothingHeldAtFirst(run[0], labels);
    } else {
      source := SourceExists(run, labels, n - 1);
      LabelledRunKeepsInv(run, labels, n - 1);
      assert Labelled(run[n - 1], labels[n - 1], run[n - 1 + 1]);
      source := SourceStep(run[n - 1], run[n], labels, n - 1, source);
    }
  }

  lemma NothingHeldAtFirst(s: State, labels: seq<Label>)
    requires Init(s)
    ensures IsSource(s, labels, 0, map[])
  {}

  ghost predicate Returned(s: State, t: ThreadId, msg: Message) {
    t in s.requests && s.requests[t].pc == Done(Answer(msg)) && msg.Response?
  }

  /** In every run, every message of the server that a request has returned is, whole, one that was read
      at an earlier step, and no two requests return the message of one step. */
  lemma AnswersWereReceived(run: seq<State>, labels: seq<Label>, n: nat) returns (source: map<ThreadId, nat>)
    requires IsLabelledRun(run, labels) && n < |run|
    ensures forall t, msg | Returned(run[n], t, msg) ::
              t in source && source[t] < n && labels[source[t]] == Received(msg)
    ensures forall t, u | t in source && u in source && t != u :: source[t] != source[u]
  {
    hide IsLabelledRun;
    source := SourceExists(run, labels, n);
    forall t, msg | Returned(run[n], t, msg)
      ensures t in source && source[t] < n && labels[source[t]] == Received(msg)
    {
      assert Holds(run[n], t, msg);
    }
  }

  // ------------------------------------------------------------- what becomes of a message

  /** A request that waits, and that nothing was sent to, is the one its id is pending for. */
  ghost predicate Awaited(s: State, t: ThreadId)
    requires t in s.requests
  {
    var r := s.requests[t];
    (r.pc.Registered? || r.pc.Selecting?) && !IsTarget(s, t) && t in s.sent && s.sent[t] == 0 ==>
      r.id in s.pending && s.pending[r.id] == t
  }

  ghost predicate IsTarget(s: State, t: ThreadId) {
    (s.reader.Delivering? || s.reader.FailSending?) && s.reader.ch == t
  }

  lemma AwaitedStep(a: State, l: Label, b: State, t: ThreadId)
    requires Inv(a) && Labelled(a, l, b) && t in b.requests
    requires t in a.requests ==> Awaited(a, t)
    ensures Awaited(b, t)
  {
    hide Inv, Awaited, RequestStep, ReadStep, QuietReaderStep;
    if l.Received? || QuietReaderStep(a, b) {
      assert t in a.requests by { hide Start; ReaderMovesNoRequest(a, l, b); }
      ReaderKeepsAwaited(a, l, b, t);
    } else if u :| Start(a, u, b) {
      StartKeepsAwaited(a, u, b, t);
    } else {
      var u :| u in a.requests && RequestStep(a, u, b);
      if t == u {
        OwnStepKeepsAwaited(a, t, b);
      } else {
        OtherKeepsAwaited(a, u, b, t);
      }
    }
  }

  lemma ReaderMovesNoRequest(a: State, l: Label, b: State)
    requires (l.Received? && ReadStep(a, l.msg, b)) || QuietReaderStep(a, b)
    ensures b.requests == a.requests
  {}

  lemma StartKeepsAwaited(a: State, u: ThreadId, b: State, t: ThreadId)
    requires Start(a, u, b) && t in b.requests && (t in a.requests ==> Awaited(a, t))
    ensures Awaited(b, t)
  {}

  lemma OwnStepKeepsAwaited(a: State, t: ThreadId, b: State)
    requires t in a.requests && RequestStep(a, t, b) && Awaited(a, t)
    ensures t in b.requests && Awaited(b, t)
  {
    RequestFrameChans(a, t, b);
    var pc := a.requests[t].pc;
    if pc.Registered? || pc.Selecting? {
      WaitingKeepsPending(a, t, b);
      hide RequestStep;
    }
  }

  lemma WaitingKeepsPending(a: State, t: ThreadId, b: State)
    requires t in a.requests && RequestStep(a, t, b)
    requires a.requests[t].pc.Registered? || a.requests[t].pc.Selecting?
    ensures b.pending == a.pending && t in b.requests && b.requests[t].id == a.requests[t].id
  {}

  lemma OtherKeepsAwaited(a: State, u: ThreadId, b: State, t: ThreadId)
    requires Inv(a) && u in a.requests && RequestStep(a, u, b) && t in b.requests && t != u
    requires t in a.requests ==> Awaited(a, t)
    ensures Awaited(b, t)
  {
    RequestFrame(a, u, b);
    RequestFrameChans(a, u, b);
    if HasNumber(a.requests[t].pc) {
      assert HasNumber(a.requests[u].pc) ==> a.requests[t].id != a.requests[u].id;
      RequestFramePending(a, u, b, a.requests[t].id);
    }
    hide Inv, RequestStep;
  }

  lemma ReaderKeepsAwaited(a: State, l: Label, b: State, t: ThreadId)
    requires Inv(a) && t in a.requests && Awaited(a, t) && t in b.requests
    requires (l.Received? && ReadStep(a, l.msg, b)) || QuietReaderStep(a, b)
    ensures Awaited(b, t)
  {
    hide Inv;
  }

  lemma {:induction false} RunIsAwaited(run: seq<State>, labels: seq<Label>, n: nat, t: ThreadId)
    requires IsLabelledRun(run, labels) && n < |run| && t in run[n].requests
    ensures Awaited(run[n], t)
  {
    hide Inv, Awaited, Labelled;
    assert n > 0;
    LabelledRunKeepsInv(run, labels, n - 1);
    assert Labelled(run[n - 1], labels[n - 1], run[n - 1 + 1]);
    if t in run[n - 1].requests {
      RunIsAwaited(run, labels, n - 1, t);
    }
    AwaitedStep(run[n - 1], labels[n - 1], run[n], t);
  }

  lemma HeldStep(a: State, l: Label, b: State, t: ThreadId, msg: Message)
    requires Inv(a) && Labelled(a, l, b) && Holds(a, t, msg)
    ensures Holds(b, t, msg)
  {
    hide Inv, Holds, ReadStep;
    match l {
      case Quiet => QuietKeepsHeld(a, b, t, msg);
      case Received(m) => var _ := ReadingHands(a, m, b);
    }
  }

  /** The converse: a response that is read while the request of its id waits, with nothing sent to it yet,
      is handed to that request unchanged, and is never lost: it is on its way to the request, in its
      channel, or what it returns. */
  lemma {:induction false} ResponseReachesRequest(run: seq<State>, labels: seq<Label>, k: nat, n: nat, t: ThreadId)
    requires IsLabelledRun(run, labels) && k < n < |run| && labels[k].Received? && labels[k].msg.Response?
    requires t in run[k].requests && (run[k].requests[t].pc.Registered? || run[k].requests[t].pc.Selecting?)
    requires Truncate(labels[k].msg.id) == run[k].requests[t].id
    requires t in run[k].sent && run[k].sent[t] == 0
    ensures Holds(run[n], t, labels[k].msg)
    decreases n
  {
    hide Init, Inv, Holds, Labelled, Awaited, Truncate;
    LabelledRunKeepsInv(run, labels, n - 1);
    assert Labelled(run[n - 1], labels[n - 1], run[n - 1 + 1]);
    if n == k + 1 {
      RunIsAwaited(run, labels, k, t);
      AwaitedIsHanded(run[k], labels[k].msg, run[n], t);
    } else {
      ResponseReachesRequest(run, labels, k, n - 1, t);
      HeldStep(run[n - 1], labels[n - 1], run[n], t, labels[k].msg);
    }
  }

  lemma AwaitedIsHanded(a: State, msg: Message, b: State, t: ThreadId)
    requires msg.Response? && Labelled(a, Received(msg), b) && t in a.requests && Awaited(a, t)
    requires a.requests[t].pc.Registered? || a.requests[t].pc.Selecting?
    requires Truncate(msg.id) == a.requests[t].id && t in a.sent && a.sent[t] == 0
    ensures Holds(b, t, msg)
  {
    hide Truncate;
  }

  /** A request that waits can return the message in its channel, whole. */
  lemma HeldCanBeReturned(s: State, t: ThreadId, msg: Message) returns (s': State)
    requires Inv(s) && t in s.requests && s.requests[t].pc.Selecting? && t in s.chans && msg in s.chans[t]
    ensures RequestStep(s, t, s') && t in s'.requests && s'.requests[t].pc == Done(Answer(msg))
  {
    assert GoodRequest(s, t);
    hide Inv, GoodRequest;
    s' := Move(s, t, Done(Answer(s.chans[t][0]))).(chans := s.chans[t := s.chans[t][1..]]);
  }
}
