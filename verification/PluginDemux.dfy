/** The inference plugin client: one reader that demultiplexes the child's frames, and any
    number of concurrent callers, as a machine over their interleaved steps. */
module PluginDemux {

  /** A request id; strconv.FormatInt renders it, injectively. Ids start at 1, so 0 stands
      for every id the client never issued. */
  type Id = nat

  datatype Frame =
    | Token(data: string)
    | Complete(invocation: string, confidence: real)
    | Pong
    | Embedding(vector: seq<real>)
    | OtherKind(kind: string)

  datatype Payload = Failure(code: int, message: string) | Neither | Result(frame: Frame)

  datatype Line = Malformed | Response(id: Id, payload: Payload)

  datatype Call = Infer | Embed

  datatype Outcome =
    | Answer(invocation: string, confidence: real)
    | Vector(vector: seq<real>)
    | PluginError(code: int, message: string)
    | NotImplemented
    | NoResultNoError
    | UnexpectedFrame(frame: Frame)
    | EmptyVector
    | StreamClosed
    | Cancelled
    | WriteFailed

  const CODE_NOT_IMPLEMENTED := -32004

  // ---- what one caller does with its own frames ----

  datatype Progress = Running(tokens: string) | Finished(outcome: Outcome)

  function Next(call: Call, before: Progress, payload: Payload): Progress {
    match (before, call, payload)
    case (Finished(_), _, _) => before
    case (Running(tokens), Infer, Failure(code, message)) => Finished(PluginError(code, message))
    case (Running(tokens), _, Neither) => Finished(NoResultNoError)
    case (Running(tokens), Infer, Result(Token(data))) => Running(tokens + data)
    case (Running(tokens), Infer, Result(Complete(invocation, confidence))) =>
      Finished(Answer(if invocation == "" then tokens else invocation, confidence))
    case (Running(tokens), Infer, Result(Pong)) => before
    case (Running(tokens), Infer, Result(frame)) => Finished(UnexpectedFrame(frame))
    case (Running(tokens), Embed, Failure(code, message)) =>
      Finished(if code == CODE_NOT_IMPLEMENTED then NotImplemented else PluginError(code, message))
    case (Running(tokens), Embed, Result(Embedding(vector))) =>
      Finished(if vector == [] then EmptyVector else Vector(vector))
    case (Running(tokens), Embed, Result(frame)) => Finished(UnexpectedFrame(frame))
  }

  function Fold(call: Call, frames: seq<Payload>): Progress {
    if frames == [] then Running("")
    else Next(call, Fold(call, frames[..|frames| - 1]), frames[|frames| - 1])
  }

  /** The sequential meaning of a call: fold its frames; if none is terminal, the stream closed. */
  function Sequential(call: Call, frames: seq<Payload>): Outcome {
    match Fold(call, frames)
    case Finished(outcome) => outcome
    case Running(_) => StreamClosed
  }

  lemma {:induction false} FoldAbsorbs(call: Call, frames: seq<Payload>, n: nat)
    requires n <= |frames| && Fold(call, frames[..n]).Finished?
    ensures Fold(call, frames) == Fold(call, frames[..n])
    decreases |frames|
  {
    if n < |frames| {
      var init := frames[..|frames| - 1];
      assert init[..n] == frames[..n];
      FoldAbsorbs(call, init, n);
    } else {
      assert frames[..n] == frames;
    }
  }

  // ---- what the answer is, from the frames alone ----

  /** Token and pong frames only: what an Infer call reads past. */
  predicate Chatter(frames: seq<Payload>) {
    forall i :: 0 <= i < |frames| ==> frames[i].Result? && (frames[i].frame.Token? || frames[i].frame.Pong?)
  }

  /** The data of the token frames, in stream order. */
  function Joined(frames: seq<Payload>): string {
    if |frames| == 0 then ""
    else (if frames[0].Result? && frames[0].frame.Token? then frames[0].frame.data else "") + Joined(frames[1..])
  }

  /** What the first frame that ends a call makes of it, after the frames before. */
  ghost predicate Decides(call: Call, before: seq<Payload>, payload: Payload, outcome: Outcome) {
    match payload
    case Failure(code, message) =>
      if call == Embed && code == -32004 then outcome == NotImplemented else outcome == PluginError(code, message)
    case Neither => outcome == NoResultNoError
    case Result(frame) =>
      match frame
      case Complete(invocation, confidence) =>
        if call == Embed then outcome == UnexpectedFrame(frame)
        else if invocation != "" then outcome == Answer(invocation, confidence)
        else outcome == Answer(Joined(before), confidence)
      case Embedding(vector) =>
        if call == Infer then outcome == UnexpectedFrame(frame)
        else if vector != [] then outcome == Vector(vector)
        else outcome == EmptyVector
      case Token(_) => call == Embed ==> outcome == UnexpectedFrame(frame)
      case Pong => call == Embed ==> outcome == UnexpectedFrame(frame)
      case OtherKind(_) => outcome == UnexpectedFrame(frame)
  }

  /** The outcome that the frames of a call give: that of the first frame that ends it, and
      whatever comes later; without one, the stream closed. */
  ghost predicate Gives(call: Call, frames: seq<Payload>, outcome: Outcome) {
    && (forall n :: 0 <= n < |frames| && (if call == Infer then Chatter(frames[..n]) else n == 0) ==>
          Decides(call, frames[..n], frames[n], outcome))
    && (frames == [] || (call == Infer && Chatter(frames)) ==> outcome == StreamClosed)
  }

  lemma {:induction false} JoinedLast(frames: seq<Payload>, last: Payload)
    ensures Joined(frames + [last]) == Joined(frames) + if last.Result? && last.frame.Token? then last.frame.data else ""
  {
    var all := frames + [last];
    if |frames| == 0 {
      assert all[1..] == [];
    } else {
      assert all[1..] == frames[1..] + [last];
      JoinedLast(frames[1..], last);
    }
  }

  /** Past token and pong frames an Infer call goes on, with the tokens joined. */
  lemma {:induction false} ChatterRuns(frames: seq<Payload>)
    requires Chatter(frames)
    ensures Fold(Infer, frames) == Running(Joined(frames))
  {
    if |frames| > 0 {
      var init, last := frames[..|frames| - 1], frames[|frames| - 1];
      ChatterRuns(init);
      JoinedLast(init, last);
      assert init + [last] == frames;
    }
  }

  lemma FirstDecides(call: Call, frames: seq<Payload>, n: nat)
    requires n < |frames| && if call == Infer then Chatter(frames[..n]) else n == 0
    ensures Decides(call, frames[..n], frames[n], Sequential(call, frames))
  {
    if call == Infer { ChatterRuns(frames[..n]); }
    var upto := frames[..n + 1];
    assert upto[..|upto| - 1] == frames[..n];
    if Fold(call, upto).Finished? { FoldAbsorbs(call, frames, n + 1); }
  }

  /** The fold gives what the frames alone say. */
  lemma SequentialGives(call: Call, frames: seq<Payload>)
    ensures Gives(call, frames, Sequential(call, frames))
  {
    forall n | 0 <= n < |frames| && (if call == Infer then Chatter(frames[..n]) else n == 0)
      ensures Decides(call, frames[..n], frames[n], Sequential(call, frames))
    {
      FirstDecides(call, frames, n);
    }
    if call == Infer && Chatter(frames) { ChatterRuns(frames); }
  }

  /** The receive loop of Infer and Embed over a channel that is closed after its frames. */
  method Collect(call: Call, frames: seq<Payload>) returns (outcome: Outcome)
    ensures outcome == Sequential(call, frames)
    ensures Gives(call, frames, outcome)
  {
    SequentialGives(call, frames);
    var progress := Running("");
    for i := 0 to |frames|
      invariant progress.Running? && progress == Fold(call, frames[..i])
    {
      assert frames[..i + 1][..i] == frames[..i];
      progress := Next(call, progress, frames[i]);
      if progress.Finished? {
        FoldAbsorbs(call, frames, i + 1);
        return progress.outcome;
      }
    }
    assert frames[..|frames|] == frames;
    outcome := StreamClosed;
  }

  // ---- the machine ----

  datatype Phase = Allocated | Registered | Waiting | Returned(outcome: Outcome) | Gone(outcome: Outcome)

  /** A call in progress, with the frames it has taken from its channel. */
  datatype Caller = Caller(call: Call, phase: Phase, got: seq<Payload>)

  datatype Chan = Chan(buffer: seq<Payload>, closed: bool)

  datatype Reader = Scanning | Sending(id: Id, payload: Payload) | Ended

  datatype State = State(
    callers: map<Id, Caller>,
    chans: map<Id, Chan>,
    pending: set<Id>,
    requested: set<Id>,
    stream: seq<Line>,
    log: seq<Line>,
    reader: Reader,
    passed: nat,
    nextId: nat,
    closed: bool)

  function Capacity(call: Call): nat {
    match call case Infer => 16 case Embed => 4
  }

  ghost predicate Init(s: State) {
    s == State(map[], map[], {}, {}, [], [], Scanning, 0, 0, false)
  }

  /** One atomic action: of the shell, of a caller, of the child, or of the reader. */
  datatype Action =
    | PassCheck
    | Alloc(call: Call)
    | Register(id: Id)
    | Write(id: Id)
    | FailWrite(id: Id)
    | Emit(line: Line)
    | Scan
    | Deliver
    | End
    | Receive(id: Id)
    | ReceiveClosed(id: Id)
    | Cancel(id: Id)
    | Cleanup(id: Id)
    | CloseClient

  predicate InPhase(s: State, id: Id, phase: Phase) {
    id in s.callers && s.callers[id].phase == phase
  }

  predicate Enabled(s: State, a: Action) {
    match a
    case PassCheck => !s.closed
    case Alloc(_) => s.passed > 0
    case Register(id) => InPhase(s, id, Allocated)
    case Write(id) => InPhase(s, id, Registered)
    case FailWrite(id) => InPhase(s, id, Registered)
    // the child answers only requests it has been sent
    case Emit(line) => line.Response? ==> line.id == 0 || line.id in s.requested
    case Scan => s.reader == Scanning && s.stream != []
    case Deliver =>
      && s.reader.Sending? && s.reader.id in s.chans && s.reader.id in s.callers
      && |s.chans[s.reader.id].buffer| < Capacity(s.callers[s.reader.id].call)
    case End => s.reader == Scanning
    case Receive(id) => InPhase(s, id, Waiting) && id in s.chans && s.chans[id].buffer != []
    case ReceiveClosed(id) => InPhase(s, id, Waiting) && id in s.chans && s.chans[id] == Chan([], true)
    case Cancel(id) => InPhase(s, id, Waiting)
    case Cleanup(id) => id in s.callers && s.callers[id].phase.Returned?
    case CloseClient => true
  }

  function MoveTo(s: State, id: Id, phase: Phase): State
    requires id in s.callers
  {
    s.(callers := s.callers[id := s.callers[id].(phase := phase)])
  }

  function Do(s: State, a: Action): State
    requires Enabled(s, a)
  {
    match a
    case PassCheck => s.(passed := s.passed + 1)
    case Alloc(call) =>
      var id := s.nextId + 1;
      s.(passed := s.passed - 1, nextId := id, callers := s.callers[id := Caller(call, Allocated, [])])
    case Register(id) =>
      MoveTo(s, id, Registered).(pending := s.pending + {id}, chans := s.chans[id := Chan([], false)])
    case Write(id) => MoveTo(s, id, Waiting).(requested := s.requested + {id})
    case FailWrite(id) => MoveTo(s, id, Returned(WriteFailed)).(requested := s.requested + {id})
    case Emit(line) => s.(stream := s.stream + [line])
    case Scan =>
      var line, rest := s.stream[0], s.stream[1..];
      if line.Malformed? then s.(stream := rest)
      else if line.id in s.pending then
        s.(stream := rest, log := s.log + [line], reader := Sending(line.id, line.payload))
      else s.(stream := rest, log := s.log + [line])
    case Deliver =>
      var ch := s.chans[s.reader.id];
      s.(chans := s.chans[s.reader.id := ch.(buffer := ch.buffer + [s.reader.payload])], reader := Scanning)
    case End =>
      s.(reader := Ended, pending := {},
         chans := map id | id in s.chans :: if id in s.pending then s.chans[id].(closed := true) else s.chans[id])
    case Receive(id) =>
      var c, ch := s.callers[id], s.chans[id];
      var got := c.got + [ch.buffer[0]];
      var phase := match Fold(c.call, got) case Finished(outcome) => Returned(outcome) case Running(_) => Waiting;
      s.(callers := s.callers[id := Caller(c.call, phase, got)], chans := s.chans[id := ch.(buffer := ch.buffer[1..])])
    case ReceiveClosed(id) => MoveTo(s, id, Returned(StreamClosed))
    case Cancel(id) => MoveTo(s, id, Returned(Cancelled))
    case Cleanup(id) => MoveTo(s, id, Gone(s.callers[id].phase.outcome)).(pending := s.pending - {id})
    case CloseClient => s.(closed := true)
  }

  /** A run: every action is enabled where it is taken. */
  ghost predicate Run(states: seq<State>, actions: seq<Action>) {
    && |states| == |actions| + 1
    && forall i :: 0 <= i < |actions| ==> Enabled(states[i], actions[i]) && states[i + 1] == Do(states[i], actions[i])
  }

  ghost predicate Reachable(s: State) {
    exists states, actions :: Run(states, actions) && Init(states[0]) && s == states[|actions|]
  }

  /** The frames for one id among the lines the reader has scanned, in stream order. */
  function Own(log: seq<Line>, id: Id): seq<Payload> {
    if log == [] then []
    else
      var last := log[|log| - 1];
      Own(log[..|log| - 1], id) + if last.Response? && last.id == id then [last.payload] else []
  }

  lemma OwnGrows(log: seq<Line>, line: Line, id: Id)
    ensures Own(log + [line], id) == Own(log, id) + if line.Response? && line.id == id then [line.payload] else []
  {
    assert (log + [line])[..|log|] == log;
  }

  // ---- the invariant ----

  function InFlight(s: State, id: Id): seq<Payload> {
    if s.reader.Sending? && s.reader.id == id then [s.reader.payload] else []
  }

  ghost predicate Bookkeeping(s: State) {
    && (forall id :: id in s.callers ==> 1 <= id <= s.nextId)
    && s.chans.Keys <= s.callers.Keys && s.pending <= s.chans.Keys && s.requested <= s.chans.Keys
    && (forall id :: id in s.callers ==> (id in s.chans <==> s.callers[id].phase != Allocated))
    && (forall id :: id in s.callers && s.callers[id].phase == Registered ==> id !in s.requested)
    && (s.reader.Sending? ==> s.reader.id in s.requested && !s.chans[s.reader.id].closed)
    && (forall id :: id in s.chans && s.chans[id].closed ==> s.reader == Ended && id !in s.pending)
    && (forall line :: line in s.stream && line.Response? ==> line.id == 0 || line.id in s.requested)
    && NoneUnasked(s.log, s.requested)
  }

  /** No frame has come for an id before its request. */
  ghost predicate NoneUnasked(log: seq<Line>, requested: set<Id>) {
    forall id :: id != 0 && id !in requested ==> Own(log, id) == []
  }

  lemma NoneUnaskedGrows(log: seq<Line>, line: Line, requested: set<Id>)
    requires NoneUnasked(log, requested) && (line.Response? ==> line.id == 0 || line.id in requested)
    ensures NoneUnasked(log + [line], requested)
  {
    forall id | id != 0 && id !in requested ensures Own(log + [line], id) == [] {
      OwnGrows(log, line, id);
    }
  }

  /** What a caller has taken, has waiting and has coming is exactly its own frames so far. */
  ghost predicate CallerOk(s: State, id: Id)
    requires id in s.callers
  {
    var c := s.callers[id];
    var own := Own(s.log, id);
    match c.phase
    case Allocated => c.got == []
    case Registered => c.got == [] && OpenOrEnded(s, id) && AllAccounted(s, id)
    case Waiting => Fold(c.call, c.got).Running? && OpenOrEnded(s, id) && AllAccounted(s, id)
    case Returned(outcome) => OutcomeOk(s, c, own, outcome)
    case Gone(outcome) => OutcomeOk(s, c, own, outcome)
  }

  ghost predicate OpenOrEnded(s: State, id: Id) {
    id in s.chans && if s.chans[id].closed then s.reader == Ended else id in s.pending
  }

  ghost predicate AllAccounted(s: State, id: Id) {
    id in s.callers && id in s.chans
    && s.callers[id].got + s.chans[id].buffer + InFlight(s, id) == Own(s.log, id)
  }

  ghost predicate OutcomeOk(s: State, c: Caller, own: seq<Payload>, outcome: Outcome) {
    || outcome == Cancelled || outcome == WriteFailed
    || (c.got <= own && Fold(c.call, c.got) == Finished(outcome))
    || (outcome == StreamClosed && s.reader == Ended && c.got == own && Fold(c.call, own).Running?)
  }

  ghost predicate Inv(s: State) {
    Bookkeeping(s) && forall id :: id in s.callers ==> CallerOk(s, id)
  }

  predicate Starts(a: Action) {
    a.PassCheck? || a.Alloc? || a.Register? || a.Write? || a.FailWrite? || a.Emit? || a.CloseClient?
  }

  /** A caller is judged by its own entry, channel and frames alone. */
  lemma SameView(s: State, t: State, x: Id)
    requires x in s.callers && x in t.callers && t.callers[x] == s.callers[x] && CallerOk(s, x)
    requires x in s.chans <==> x in t.chans
    requires x in s.chans ==> t.chans[x] == s.chans[x]
    requires x in s.pending ==> x in t.pending
    requires Own(t.log, x) == Own(s.log, x) && InFlight(t, x) == InFlight(s, x)
    requires s.reader == Ended ==> t.reader == Ended
    ensures CallerOk(t, x)
  {
  }

  lemma QuietBookkeeping(s: State, a: Action)
    requires Bookkeeping(s) && Enabled(s, a) && (a.PassCheck? || a.Emit? || a.CloseClient?)
    ensures Bookkeeping(Do(s, a))
  {
  }

  lemma AllocBookkeeping(s: State, call: Call)
    requires Bookkeeping(s) && Enabled(s, Alloc(call))
    ensures Bookkeeping(Do(s, Alloc(call)))
  {
  }

  lemma RegisterBookkeeping(s: State, id: Id)
    requires Bookkeeping(s) && Enabled(s, Register(id))
    ensures Bookkeeping(Do(s, Register(id)))
  {
  }

  lemma WriteBookkeeping(s: State, a: Action)
    requires Bookkeeping(s) && Enabled(s, a) && (a.Write? || a.FailWrite?)
    ensures Bookkeeping(Do(s, a))
  {
  }

  lemma StartCaller(s: State, a: Action, x: Id)
    requires Bookkeeping(s) && Enabled(s, a) && Starts(a) && x in Do(s, a).callers
    requires x in s.callers ==> CallerOk(s, x)
    ensures CallerOk(Do(s, a), x)
  {
    if a.Register? && x == a.id {
      assert Own(s.log, x) == [];
      assert InFlight(s, x) == [];
    }
  }

  lemma StartKeeps(s: State, a: Action)
    requires Inv(s) && Enabled(s, a) && Starts(a)
    ensures Inv(Do(s, a))
  {
    match a {
      case Alloc(call) => AllocBookkeeping(s, call);
      case Register(id) => RegisterBookkeeping(s, id);
      case Write(_) => WriteBookkeeping(s, a);
      case FailWrite(_) => WriteBookkeeping(s, a);
      case _ => QuietBookkeeping(s, a);
    }
    forall x | x in Do(s, a).callers ensures CallerOk(Do(s, a), x) { StartCaller(s, a, x); }
  }

  lemma LeaveBookkeeping(s: State, a: Action)
    requires Bookkeeping(s) && Enabled(s, a) && (a.ReceiveClosed? || a.Cancel? || a.Cleanup?)
    ensures Bookkeeping(Do(s, a))
  {
  }

  lemma ClosedCaller(s: State, id: Id)
    requires Enabled(s, ReceiveClosed(id)) && CallerOk(s, id)
    ensures CallerOk(Do(s, ReceiveClosed(id)), id)
  {
    assert s.reader == Ended;
    assert InFlight(s, id) == [] && s.callers[id].got + [] + [] == s.callers[id].got;
  }

  lemma LeaveCaller(s: State, a: Action)
    requires Enabled(s, a) && (a.Cancel? || a.Cleanup?) && CallerOk(s, a.id)
    ensures CallerOk(Do(s, a), a.id)
  {
  }

  lemma LeaveOther(s: State, a: Action, x: Id)
    requires Enabled(s, a) && (a.ReceiveClosed? || a.Cancel? || a.Cleanup?)
    requires x in s.callers && x != a.id && CallerOk(s, x)
    ensures CallerOk(Do(s, a), x)
  {
    SameView(s, Do(s, a), x);
  }

  lemma LeaveKeeps(s: State, a: Action)
    requires Inv(s) && Enabled(s, a) && (a.ReceiveClosed? || a.Cancel? || a.Cleanup?)
    ensures Inv(Do(s, a))
  {
    var t := Do(s, a);
    LeaveBookkeeping(s, a);
    if a.ReceiveClosed? { ClosedCaller(s, a.id); } else { LeaveCaller(s, a); }
    forall x | x in t.callers && x != a.id ensures CallerOk(t, x) { LeaveOther(s, a, x); }
  }

  lemma ReceiveBookkeeping(s: State, id: Id)
    requires Bookkeeping(s) && Enabled(s, Receive(id))
    ensures Bookkeeping(Do(s, Receive(id)))
  {
    assert Do(s, Receive(id)).log == s.log;
  }

  lemma ReceiveCaller(s: State, id: Id)
    requires Enabled(s, Receive(id)) && CallerOk(s, id)
    ensures CallerOk(Do(s, Receive(id)), id)
  {
    var c, ch := s.callers[id], s.chans[id];
    var coming := InFlight(s, id);
    assert c.got + [ch.buffer[0]] + ch.buffer[1..] + coming == c.got + ch.buffer + coming;
  }

  lemma ReceiveKeeps(s: State, id: Id)
    requires Inv(s) && Enabled(s, Receive(id))
    ensures Inv(Do(s, Receive(id)))
  {
    var t := Do(s, Receive(id));
    ReceiveBookkeeping(s, id);
    ReceiveCaller(s, id);
    forall x | x in t.callers && x != id ensures CallerOk(t, x) { SameView(s, t, x); }
  }

  lemma ScanBookkeeping(s: State)
    requires Bookkeeping(s) && Enabled(s, Scan)
    requires forall x :: x in s.pending ==> x in s.callers && CallerOk(s, x)
    ensures Bookkeeping(Do(s, Scan))
  {
    var line := s.stream[0];
    assert line in s.stream;
    assert forall l :: l in s.stream[1..] ==> l in s.stream;
    NoneUnaskedGrows(s.log, line, s.requested);
  }

  /** A scanned line is nothing to a caller whose id it does not carry. */
  lemma ScanOther(s: State, x: Id)
    requires Enabled(s, Scan) && x in s.callers && CallerOk(s, x)
    requires s.stream[0].Response? ==> s.stream[0].id != x
    ensures CallerOk(Do(s, Scan), x)
  {
    var t := Do(s, Scan);
    OwnGrows(s.log, s.stream[0], x);
    assert Own(s.log, x) + [] == Own(s.log, x);
    assert Own(t.log, x) == Own(s.log, x);
    assert InFlight(t, x) == InFlight(s, x) == [];
    SameView(s, t, x);
  }

  lemma ScanOwn(s: State, x: Id)
    requires Enabled(s, Scan) && x in s.callers && CallerOk(s, x)
    requires s.stream[0].Response? && s.stream[0].id == x && s.callers[x].phase != Registered
    ensures CallerOk(Do(s, Scan), x)
  {
    OwnGrows(s.log, s.stream[0], x);
  }

  lemma ScanKeeps(s: State)
    requires Inv(s) && Enabled(s, Scan)
    ensures Inv(Do(s, Scan))
  {
    var line := s.stream[0];
    assert line in s.stream;
    ScanBookkeeping(s);
    forall x | x in s.callers ensures CallerOk(Do(s, Scan), x) {
      if line.Response? && line.id == x { ScanOwn(s, x); } else { ScanOther(s, x); }
    }
  }

  lemma DeliverBookkeeping(s: State)
    requires Bookkeeping(s) && Enabled(s, Deliver)
    ensures Bookkeeping(Do(s, Deliver))
  {
  }

  lemma DeliverCaller(s: State, x: Id)
    requires Bookkeeping(s) && Enabled(s, Deliver) && x in s.callers && CallerOk(s, x)
    ensures CallerOk(Do(s, Deliver), x)
  {
    if x == s.reader.id {
      var c, ch := s.callers[x], s.chans[x];
      assert c.got + (ch.buffer + [s.reader.payload]) + [] == c.got + ch.buffer + [s.reader.payload];
    }
  }

  lemma DeliverKeeps(s: State)
    requires Inv(s) && Enabled(s, Deliver)
    ensures Inv(Do(s, Deliver))
  {
    DeliverBookkeeping(s);
    forall x | x in s.callers ensures CallerOk(Do(s, Deliver), x) { DeliverCaller(s, x); }
  }

  lemma EndKeeps(s: State)
    requires Inv(s) && Enabled(s, End)
    ensures Inv(Do(s, End))
  {
    var t := Do(s, End);
    forall x | x in t.callers ensures CallerOk(t, x) {
      assert CallerOk(s, x);
    }
  }

  lemma InvStep(s: State, a: Action)
    requires Inv(s) && Enabled(s, a)
    ensures Inv(Do(s, a))
  {
    match a
    case Scan => ScanKeeps(s);
    case Deliver => DeliverKeeps(s);
    case End => EndKeeps(s);
    case Receive(id) => ReceiveKeeps(s, id);
    case ReceiveClosed(_) => LeaveKeeps(s, a);
    case Cancel(_) => LeaveKeeps(s, a);
    case Cleanup(_) => LeaveKeeps(s, a);
    case _ => StartKeeps(s, a);
  }

  lemma {:induction false} RunKeepsInv(states: seq<State>, actions: seq<Action>, n: nat)
    requires Run(states, actions) && Init(states[0]) && n <= |actions|
    ensures Inv(states[n])
  {
    if n > 0 {
      RunKeepsInv(states, actions, n - 1);
      InvStep(states[n - 1], actions[n - 1]);
      assert states[n - 1 + 1] == Do(states[n - 1], actions[n - 1]);
    }
  }

  // ---- the theorems ----

  /** Every interleaving refines the sequential fold: in every reachable state, a call that
      returned without being cancelled and without a failed write returned exactly what folding
      its own frames in stream order gives. Frames of other calls, frames that came after its
      terminal frame, and the timing of everybody else make no difference. */
  lemma DemuxRefinesFold(s: State, id: Id)
    requires Reachable(s) && id in s.callers
    requires s.callers[id].phase.Returned? || s.callers[id].phase.Gone?
    ensures var outcome := s.callers[id].phase.outcome;
      || outcome == Cancelled || outcome == WriteFailed
      || (outcome == Sequential(s.callers[id].call, Own(s.log, id))
          && Gives(s.callers[id].call, Own(s.log, id), outcome)
          && (Fold(s.callers[id].call, Own(s.log, id)).Running? ==> s.reader == Ended))
  {
    SequentialGives(s.callers[id].call, Own(s.log, id));
    ReachableInv(s);
    assert CallerOk(s, id);
    var c, own := s.callers[id], Own(s.log, id);
    if c.got <= own && Fold(c.call, c.got).Finished? {
      assert own[..|c.got|] == c.got;
      FoldAbsorbs(c.call, own, |c.got|);
    }
  }

  /** A reader that has ended takes no more lines. */
  lemma EndedForGood(s: State, a: Action)
    requires s.reader == Ended && Enabled(s, a)
    ensures Do(s, a).log == s.log && Do(s, a).reader == Ended
  {
  }

  lemma ReachableInv(s: State)
    requires Reachable(s)
    ensures Inv(s)
  {
    var states, actions :| Run(states, actions) && Init(states[0]) && s == states[|actions|];
    RunKeepsInv(states, actions, |actions|);
  }

  /** Once the reader has ended, no continuation adds a frame to any call, so the folds that
      the calls are judged by are final, and a closed stream stays closed. */
  lemma {:induction false} EndedForever(states: seq<State>, actions: seq<Action>, n: nat, id: Id)
    requires Run(states, actions) && states[0].reader == Ended && n <= |actions|
    ensures states[n].reader == Ended && states[n].log == states[0].log
    ensures Own(states[n].log, id) == Own(states[0].log, id)
  {
    if n > 0 {
      EndedForever(states, actions, n - 1, id);
      assert Enabled(states[n - 1], actions[n - 1]) && states[n - 1 + 1] == Do(states[n - 1], actions[n - 1]);
      EndedForGood(states[n - 1], actions[n - 1]);
    }
  }

  /** The reader never sends on a closed channel. */
  lemma NoSendOnClosed(s: State)
    requires Reachable(s)
    ensures s.reader.Sending? ==> s.reader.id in s.chans && !s.chans[s.reader.id].closed
  {
    ReachableInv(s);
  }

  // ---- the blocking send ----

  /** The reader is in its send, the channel is full, and the only goroutine that drains it
      has left its loop. */
  ghost predicate Wedged(s: State) {
    && s.reader.Sending? && s.reader.id in s.callers && s.reader.id in s.chans
    && (s.callers[s.reader.id].phase.Returned? || s.callers[s.reader.id].phase.Gone?)
    && |s.chans[s.reader.id].buffer| >= Capacity(s.callers[s.reader.id].call)
  }

  lemma WedgedStep(s: State, a: Action)
    requires Wedged(s) && Enabled(s, a) && s.reader.id <= s.nextId
    ensures Wedged(Do(s, a)) && Do(s, a).reader == s.reader && Do(s, a).log == s.log
    ensures s.reader.id <= Do(s, a).nextId
  {
  }

  lemma {:induction false} WedgedForever(states: seq<State>, actions: seq<Action>, n: nat)
    requires Run(states, actions) && Wedged(states[0]) && n <= |actions|
    requires states[0].reader.id <= states[0].nextId
    ensures Wedged(states[n]) && states[n].reader == states[0].reader && states[n].log == states[0].log
    ensures states[n].reader.id <= states[n].nextId
  {
    if n > 0 {
      WedgedForever(states, actions, n - 1);
      assert Enabled(states[n - 1], actions[n - 1]) && states[n - 1 + 1] == Do(states[n - 1], actions[n - 1]);
      WedgedStep(states[n - 1], actions[n - 1]);
    }
  }

  // ---- what is in a channel ----

  /** A channel holds no more than it can, and what its caller has taken, what waits and what
      is coming are the first of its own frames; all of them while the caller is registered. */
  ghost predicate ChannelOk(s: State, id: Id)
    requires id in s.chans && id in s.callers
  {
    var taken := s.callers[id].got + s.chans[id].buffer + InFlight(s, id);
    && |s.chans[id].buffer| <= Capacity(s.callers[id].call)
    && taken <= Own(s.log, id) && (id in s.pending ==> taken == Own(s.log, id))
  }

  ghost predicate Bounded(s: State) {
    forall id :: id in s.chans ==> id in s.callers && ChannelOk(s, id)
  }

  /** A channel is judged by its own entries and frames alone. */
  lemma SameChannel(s: State, t: State, id: Id)
    requires id in s.chans && id in s.callers && ChannelOk(s, id)
    requires id in t.chans && t.chans[id].buffer == s.chans[id].buffer
    requires id in t.callers && t.callers[id].call == s.callers[id].call && t.callers[id].got == s.callers[id].got
    requires Own(t.log, id) == Own(s.log, id) && InFlight(t, id) == InFlight(s, id)
    requires id in t.pending ==> id in s.pending
    ensures ChannelOk(t, id)
  {
  }

  lemma RegisterChannel(s: State, id: Id)
    requires Inv(s) && Enabled(s, Register(id))
    ensures ChannelOk(Do(s, Register(id)), id)
  {
    assert CallerOk(s, id);
    assert Own(s.log, id) == [] && InFlight(s, id) == [];
  }

  lemma ScanChannel(s: State, id: Id)
    requires Enabled(s, Scan) && id in s.chans && id in s.callers && ChannelOk(s, id)
    ensures ChannelOk(Do(s, Scan), id)
  {
    var t, c := Do(s, Scan), s.callers[id];
    OwnGrows(s.log, s.stream[0], id);
    var taken := c.got + s.chans[id].buffer;
    assert InFlight(s, id) == [] && taken + [] == taken;
    assert Own(s.log, id) + [] == Own(s.log, id);
  }

  lemma DeliverChannel(s: State, id: Id)
    requires Enabled(s, Deliver) && id in s.chans && id in s.callers && ChannelOk(s, id)
    ensures ChannelOk(Do(s, Deliver), id)
  {
    if id == s.reader.id {
      var got, buffer, payload := s.callers[id].got, s.chans[id].buffer, s.reader.payload;
      assert got + (buffer + [payload]) + [] == got + buffer + [payload];
    } else {
      assert InFlight(s, id) == [];
    }
  }

  lemma ReceiveChannel(s: State, id: Id)
    requires Enabled(s, Receive(id)) && ChannelOk(s, id)
    ensures ChannelOk(Do(s, Receive(id)), id)
  {
    var c, ch := s.callers[id], s.chans[id];
    var coming := InFlight(s, id);
    assert c.got + [ch.buffer[0]] + ch.buffer[1..] + coming == c.got + ch.buffer + coming;
  }

  /** An action that is not a step of the reader leaves every channel but its own alone. */
  lemma OtherChannel(s: State, a: Action, id: Id)
    requires Inv(s) && Bounded(s) && Enabled(s, a) && !a.Scan? && !a.Deliver? && id in s.chans
    requires !((a.Register? || a.Receive?) && a.id == id)
    ensures id in Do(s, a).chans && id in Do(s, a).callers && ChannelOk(Do(s, a), id)
  {
    assert id in s.callers && ChannelOk(s, id) && id <= s.nextId;
    assert !a.End? || InFlight(s, id) == InFlight(Do(s, a), id) == [];
    SameChannel(s, Do(s, a), id);
  }

  lemma BoundedStep(s: State, a: Action)
    requires Inv(s) && Bounded(s) && Enabled(s, a)
    ensures Bounded(Do(s, a))
  {
    var t := Do(s, a);
    forall id | id in t.chans ensures id in t.callers && ChannelOk(t, id) {
      if a.Scan? {
        ScanChannel(s, id);
      } else if a.Deliver? {
        DeliverChannel(s, id);
      } else if a.Register? && a.id == id {
        RegisterChannel(s, id);
      } else if a.Receive? && a.id == id {
        ReceiveChannel(s, id);
      } else {
        OtherChannel(s, a, id);
      }
    }
  }

  lemma {:induction false} RunKeepsBounded(states: seq<State>, actions: seq<Action>, n: nat)
    requires Run(states, actions) && Init(states[0]) && n <= |actions|
    ensures Bounded(states[n])
  {
    if n > 0 {
      RunKeepsBounded(states, actions, n - 1);
      RunKeepsInv(states, actions, n - 1);
      BoundedStep(states[n - 1], actions[n - 1]);
      assert states[n - 1 + 1] == Do(states[n - 1], actions[n - 1]);
    }
  }

  lemma ReachableBounded(s: State)
    requires Reachable(s)
    ensures Bounded(s)
  {
    var states, actions :| Run(states, actions) && Init(states[0]) && s == states[|actions|];
    RunKeepsBounded(states, actions, |actions|);
  }

  /** Some continuation gets the reader out of the send it is in. */
  ghost predicate CanMoveOn(s: State) {
    exists states: seq<State>, actions: seq<Action> ::
      Run(states, actions) && states[0] == s && states[|actions|].reader != s.reader
  }

  lemma MovesOnNow(s: State)
    requires s.reader.Sending? && Enabled(s, Deliver)
    ensures CanMoveOn(s)
  {
    var states, actions := [s, Do(s, Deliver)], [Deliver];
    assert Run(states, actions) && states[0] == s && states[|actions|].reader != s.reader;
  }

  lemma MovesOnNext(s: State, id: Id)
    requires s.reader.Sending? && Enabled(s, Receive(id)) && Enabled(Do(s, Receive(id)), Deliver)
    ensures CanMoveOn(s)
  {
    var mid := Do(s, Receive(id));
    var states, actions := [s, mid, Do(mid, Deliver)], [Receive(id), Deliver];
    assert Run(states, actions) && states[0] == s && states[|actions|].reader != s.reader;
  }

  /** The waiting caller makes the room that the send needs. */
  lemma WaiterMakesRoom(s: State)
    requires Inv(s) && Bounded(s) && s.reader.Sending? && !Wedged(s) && !Enabled(s, Deliver)
    ensures Enabled(s, Receive(s.reader.id)) && Enabled(Do(s, Receive(s.reader.id)), Deliver)
  {
    var id := s.reader.id;
    assert CallerOk(s, id) && ChannelOk(s, id);
  }

  /** A send in progress can still complete if and only if the reader is not wedged, and then
      at most one receive comes before it. */
  lemma SendCompletesIff(s: State)
    requires Reachable(s) && s.reader.Sending?
    ensures CanMoveOn(s) <==> !Wedged(s)
    ensures !Wedged(s) ==>
              (Enabled(s, Deliver)
               || (Enabled(s, Receive(s.reader.id)) && Enabled(Do(s, Receive(s.reader.id)), Deliver)))
  {
    ReachableInv(s);
    ReachableBounded(s);
    if Wedged(s) {
      forall states: seq<State>, actions: seq<Action> | Run(states, actions) && states[0] == s
        ensures states[|actions|].reader == s.reader
      {
        WedgedForever(states, actions, |actions|);
      }
    } else if Enabled(s, Deliver) {
      MovesOnNow(s);
    } else {
      WaiterMakesRoom(s);
      MovesOnNext(s, s.reader.id);
    }
  }

  /** While no more frames have come for an id than its channel holds, a send for it completes. */
  lemma ShortAnswersComplete(s: State)
    requires Reachable(s) && s.reader.Sending?
    requires s.reader.id in s.callers && |Own(s.log, s.reader.id)| <= Capacity(s.callers[s.reader.id].call)
    ensures CanMoveOn(s)
  {
    ReachableInv(s);
    ReachableBounded(s);
    assert s.reader.id in s.chans && ChannelOk(s, s.reader.id);
    assert |InFlight(s, s.reader.id)| == 1;
    SendCompletesIff(s);
  }

  lemma ReachStep(s: State, a: Action)
    requires Reachable(s) && Enabled(s, a)
    ensures Reachable(Do(s, a))
  {
    var states, actions :| Run(states, actions) && Init(states[0]) && s == states[|actions|];
    var states', actions' := states + [Do(s, a)], actions + [a];
    assert Run(states', actions') && Init(states'[0]) && Do(s, a) == states'[|actions'|];
  }

  /** A call with n frames in its channel, none of them taken. */
  function Flooded(call: Call, n: nat): State {
    State(map[1 := Caller(call, Waiting, [])],
          map[1 := Chan(seq(n, _ => Result(Pong)), false)],
          {1}, {1}, [], seq(n, _ => Response(1, Result(Pong))), Scanning, 0, 1, false)
  }

  lemma InitReachable(s: State)
    requires Init(s)
    ensures Reachable(s)
  {
    var states, actions: seq<Action> := [s], [];
    assert Run(states, actions) && Init(states[0]) && s == states[|actions|];
  }

  lemma AllocReachable(call: Call) returns (s: State)
    ensures Reachable(s)
    ensures s == State(map[1 := Caller(call, Allocated, [])], map[], {}, {}, [], [], Scanning, 0, 1, false)
  {
    var s0 := State(map[], map[], {}, {}, [], [], Scanning, 0, 0, false);
    InitReachable(s0);
    ReachStep(s0, PassCheck);
    var s1 := Do(s0, PassCheck);
    ReachStep(s1, Alloc(call));
    s := Do(s1, Alloc(call));
  }

  lemma RegisterReachable(call: Call) returns (s: State)
    ensures Reachable(s)
    ensures s == State(map[1 := Caller(call, Registered, [])], map[1 := Chan([], false)], {1}, {}, [], [], Scanning, 0, 1, false)
  {
    var before := AllocReachable(call);
    ReachStep(before, Register(1));
    s := Do(before, Register(1));
  }

  lemma FloodStarts(call: Call)
    ensures Reachable(Flooded(call, 0))
  {
    var before := RegisterReachable(call);
    ReachStep(before, Write(1));
    var s := Do(before, Write(1));
    assert s.chans[1].buffer == Flooded(call, 0).chans[1].buffer;
    assert s == Flooded(call, 0);
  }

  lemma {:induction false} FloodReachable(call: Call, n: nat)
    requires n <= Capacity(call)
    ensures Reachable(Flooded(call, n))
  {
    if n == 0 {
      FloodStarts(call);
    } else {
      FloodReachable(call, n - 1);
      var s := PlusOneScanned(call, n - 1);
      ReachStep(s, Deliver);
      assert Flooded(call, n - 1).chans[1].buffer + [Result(Pong)] == Flooded(call, n).chans[1].buffer;
      assert Do(s, Deliver) == Flooded(call, n);
    }
  }

  lemma PlusOneScanned(call: Call, n: nat) returns (s: State)
    requires Reachable(Flooded(call, n))
    ensures Reachable(s)
    ensures s == Flooded(call, n).(log := seq(n + 1, _ => Response(1, Result(Pong))), reader := Sending(1, Result(Pong)))
  {
    var line := Response(1, Result(Pong));
    ReachStep(Flooded(call, n), Emit(line));
    var emitted := Do(Flooded(call, n), Emit(line));
    assert emitted.stream == [line];
    ReachStep(emitted, Scan);
    s := Do(emitted, Scan);
  }

  lemma {:induction false} OwnOfFlood(n: nat)
    ensures |Own(seq(n, _ => Response(1, Result(Pong))), 1)| == n
  {
    var log := seq(n, _ => Response(1, Result(Pong)));
    if n > 0 {
      OwnOfFlood(n - 1);
      assert log[..n - 1] == seq(n - 1, _ => Response(1, Result(Pong)));
    }
  }

  /** The state is wedged in a call of this kind, for which at most n frames have come. */
  ghost predicate WedgedWithin(s: State, call: Call, n: nat) {
    Reachable(s) && Wedged(s) && s.callers[s.reader.id].call == call && |Own(s.log, s.reader.id)| <= n
  }

  /** A call that is cancelled before it takes any of one frame more than its channel holds
      leaves the reader in its send for good. */
  lemma WedgeReachable(call: Call) returns (s: State)
    ensures WedgedWithin(s, call, Capacity(call) + 1)
  {
    var n := Capacity(call);
    FloodReachable(call, n);
    var full := PlusOneScanned(call, n);
    ReachStep(full, Cancel(1));
    OwnOfFlood(n + 1);
    s := Do(full, Cancel(1));
  }

  /** The reader can be wedged by n frames or fewer for one call if and only if n is more than
      that call's channel holds. */
  lemma WedgeIff(call: Call, n: nat)
    ensures (exists s :: WedgedWithin(s, call, n)) <==> n > (if call == Infer then 16 else 4)
  {
    if n > Capacity(call) {
      var s := WedgeReachable(call);
      assert WedgedWithin(s, call, n);
    } else {
      forall s ensures !WedgedWithin(s, call, n) {
        if WedgedWithin(s, call, n) {
          ShortAnswersComplete(s);
          SendCompletesIff(s);
        }
      }
    }
  }
}
