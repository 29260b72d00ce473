/** The websocket client's reconnect protocol as interleaved steps.

    A writer and a reader goroutine share a connection; when either fails it reports on the `reconnectAfter`
    channel (capacity 1) and exits. The reconnect goroutine waits for both to exit, dials again, drains the
    channel, resends the request in the backlog (capacity 1), and starts a new pair. Goroutines are modelled by
    their program counters and every channel operation is one step, so a run is any interleaving. A send on a
    full channel is a step that is not enabled.
 */
module Reconnect {
  datatype Request = Request(id: nat)

  datatype Writer =
    | WSelect                  // waits for a request, a tick, or the end of the reader
    | WWrite(req: Request)     // took a request, writes it to the connection
    | WReport(req: Request)    // the write failed; reports the error
    | WRequeue(req: Request)   // puts the request into the backlog
    | WPing                    // writes a ping
    | WPingReport              // the ping failed; reports the error
    | WExit                    // closes the connection and leaves the wait group

  datatype Reader =
    | RRead     // reads messages
    | RClose    // the read failed; closes readRoutineQuit
    | RReport   // reports the error
    | RExit     // closes the connection and leaves the wait group

  datatype Connector =
    | CSelect                   // waits for an error report
    | CWait                     // waits for the wait group
    | CDial
    | CDrain                    // empties reconnectAfter
    | CBacklog                  // looks into the backlog
    | CResend(req: Request)     // writes the request from the backlog
    | CReport(req: Request)     // that write failed; reports the error
    | CRequeue(req: Request)    // puts the request back
    | CStart                    // starts a reader and a writer
    | CStop                     // dialling failed for good; stops the client
    | CGone

  datatype State = State(
    writers: seq<Writer>,
    readers: seq<Reader>,
    connector: Connector,
    wg: nat,                    // the wait group
    reports: nat,               // errors in reconnectAfter
    backlog: seq<Request>,
    readerQuit: bool,           // readRoutineQuit is closed
    stopped: bool,              // the service was stopped
    accepted: seq<Request>,     // requests taken from send, in order
    written: seq<Request>)      // requests written successfully, in order

  const REPORTS_CAPACITY := 1
  const BACKLOG_CAPACITY := 1

  function Init(): State
  {
    State([WSelect], [RRead], CSelect, 2, 0, [], false, false, [], [])
  }

  // ---------------------------------------------------------------- steps

  datatype Step =
    | Accept(i: nat, req: Request) | Written(i: nat) | WriteFails(i: nat) | ReportWrite(i: nat) | PutBack(i: nat)
    | Tick(i: nat) | Pinged(i: nat) | PingFails(i: nat) | ReportPing(i: nat) | SeeQuit(i: nat) | WriterDone(i: nat)
    | ReadFails(i: nat) | ReadEnds(i: nat) | CloseQuit(i: nat) | ReportRead(i: nat) | ReaderDone(i: nat)
    | TakeReport | SeeStopped | AllDone | Dialled | DialFails | StopClient | DrainOne | Drained
    | TakeBacklog | NoBacklog | Resent | ResendFails | ReportResend | PutBackResend | StartRoutines
    | Timeout      // a caller whose response timed out reports an error
    | Stop         // the client is stopped from outside

  /** The state after a step of writer i, if it can take that step. */
  function WriterStep(s: State, i: nat, step: Step): State
    requires i < |s.writers| && WriterCan(s, i, step)
  {
    match step
    case Accept(_, req) => s.(writers := s.writers[i := WWrite(req)], accepted := s.accepted + [req])
    case Written(_) => s.(writers := s.writers[i := WSelect], written := s.written + [s.writers[i].req])
    case WriteFails(_) => s.(writers := s.writers[i := WReport(s.writers[i].req)])
    case ReportWrite(_) => s.(writers := s.writers[i := WRequeue(s.writers[i].req)], reports := s.reports + 1)
    case PutBack(_) => s.(writers := s.writers[i := WExit], backlog := s.backlog + [s.writers[i].req])
    case Tick(_) => s.(writers := s.writers[i := WPing])
    case Pinged(_) => s.(writers := s.writers[i := WSelect])
    case PingFails(_) => s.(writers := s.writers[i := WPingReport])
    case ReportPing(_) => s.(writers := s.writers[i := WExit], reports := s.reports + 1)
    case SeeQuit(_) => s.(writers := s.writers[i := WExit])
    case WriterDone(_) => s.(writers := s.writers[..i] + s.writers[i + 1..], wg := s.wg - 1)
  }

  predicate WriterCan(s: State, i: nat, step: Step)
    requires i < |s.writers|
  {
    var w := s.writers[i];
    match step
    case Accept(_, _) => w.WSelect?
    case Written(_) => w.WWrite?
    case WriteFails(_) => w.WWrite?
    case ReportWrite(_) => w.WReport? && s.reports < REPORTS_CAPACITY
    case PutBack(_) => w.WRequeue? && |s.backlog| < BACKLOG_CAPACITY
    case Tick(_) => w.WSelect?
    case Pinged(_) => w.WPing?
    case PingFails(_) => w.WPing?
    case ReportPing(_) => w.WPingReport? && s.reports < REPORTS_CAPACITY
    case SeeQuit(_) => w.WSelect? && (s.readerQuit || s.stopped)
    case WriterDone(_) => w.WExit? && s.wg > 0
    case _ => false
  }

  predicate ReaderCan(s: State, i: nat, step: Step)
    requires i < |s.readers|
  {
    var r := s.readers[i];
    match step
    case ReadFails(_) => r.RRead?
    case ReadEnds(_) => r.RRead?
    case CloseQuit(_) => r.RClose?
    case ReportRead(_) => r.RReport? && s.reports < REPORTS_CAPACITY
    case ReaderDone(_) => r.RExit? && s.wg > 0
    case _ => false
  }

  function ReaderStep(s: State, i: nat, step: Step): State
    requires i < |s.readers| && ReaderCan(s, i, step)
  {
    match step
    case ReadFails(_) => s.(readers := s.readers[i := RClose])
    case ReadEnds(_) => s.(readers := s.readers[i := RExit])
    case CloseQuit(_) => s.(readers := s.readers[i := RReport], readerQuit := true)
    case ReportRead(_) => s.(readers := s.readers[i := RExit], reports := s.reports + 1)
    case ReaderDone(_) => s.(readers := s.readers[..i] + s.readers[i + 1..], wg := s.wg - 1)
  }

  predicate ConnectorCan(s: State, step: Step)
  {
    var c := s.connector;
    match step
    case TakeReport => c.CSelect? && s.reports > 0
    case SeeStopped => c.CSelect? && s.stopped
    case AllDone => c.CWait? && s.wg == 0
    case Dialled => c.CDial?
    case DialFails => c.CDial?
    case StopClient => c.CStop?
    case DrainOne => c.CDrain? && s.reports > 0
    case Drained => c.CDrain? && s.reports == 0
    case TakeBacklog => c.CBacklog? && s.backlog != []
    case NoBacklog => c.CBacklog? && s.backlog == []
    case Resent => c.CResend?
    case ResendFails => c.CResend?
    case ReportResend => c.CReport? && s.reports < REPORTS_CAPACITY
    case PutBackResend => c.CRequeue? && |s.backlog| < BACKLOG_CAPACITY
    case StartRoutines => c.CStart?
    case _ => false
  }

  function ConnectorStep(s: State, step: Step): State
    requires ConnectorCan(s, step)
  {
    match step
    case TakeReport => s.(connector := CWait, reports := s.reports - 1)
    case SeeStopped => s.(connector := CGone)
    case AllDone => s.(connector := CDial)
    case Dialled => s.(connector := CDrain)
    case DialFails => s.(connector := CStop)
    case StopClient => s.(connector := CGone, stopped := true)
    case DrainOne => s.(reports := s.reports - 1)
    case Drained => s.(connector := CBacklog)
    case TakeBacklog => s.(connector := CResend(s.backlog[0]), backlog := s.backlog[1..])
    case NoBacklog => s.(connector := CStart)
    case Resent => s.(connector := CStart, written := s.written + [s.connector.req])
    case ResendFails => s.(connector := CReport(s.connector.req))
    case ReportResend => s.(connector := CRequeue(s.connector.req), reports := s.reports + 1)
    case PutBackResend => s.(connector := CSelect, backlog := s.backlog + [s.connector.req])
    case StartRoutines =>
      s.(connector := CSelect, writers := s.writers + [WSelect], readers := s.readers + [RRead],
         wg := s.wg + 2, readerQuit := false)
  }

  predicate ByWriter(step: Step)
  {
    step.Accept? || step.Written? || step.WriteFails? || step.ReportWrite? || step.PutBack? || step.Tick?
    || step.Pinged? || step.PingFails? || step.ReportPing? || step.SeeQuit? || step.WriterDone?
  }

  predicate ByReader(step: Step)
  {
    step.ReadFails? || step.ReadEnds? || step.CloseQuit? || step.ReportRead? || step.ReaderDone?
  }

  predicate Enabled(s: State, step: Step)
  {
    if ByWriter(step) then step.i < |s.writers| && WriterCan(s, step.i, step)
    else if ByReader(step) then step.i < |s.readers| && ReaderCan(s, step.i, step)
    else if step.Timeout? then s.reports < REPORTS_CAPACITY
    else if step.Stop? then true
    else ConnectorCan(s, step)
  }

  function Next(s: State, step: Step): State
    requires Enabled(s, step)
  {
    if ByWriter(step) then WriterStep(s, step.i, step)
    else if ByReader(step) then ReaderStep(s, step.i, step)
    else if step.Timeout? then s.(reports := s.reports + 1)
    else if step.Stop? then s.(stopped := true)
    else ConnectorStep(s, step)
  }

  /** The steps can be taken one after the other from s. */
  predicate Runs(s: State, steps: seq<Step>)
    decreases |steps|
  {
    steps != [] ==> Enabled(s, steps[0]) && Runs(Next(s, steps[0]), steps[1..])
  }

  function Exec(s: State, steps: seq<Step>): State
    requires Runs(s, steps)
    decreases |steps|
  {
    if steps == [] then s else Exec(Next(s, steps[0]), steps[1..])
  }

  // ---------------------------------------------------------------- safety

  function HeldByWriter(w: Writer): seq<Request>
  {
    if w.WWrite? || w.WReport? || w.WRequeue? then [w.req] else []
  }

  function HeldByWriters(ws: seq<Writer>): seq<Request>
  {
    if ws == [] then [] else HeldByWriter(ws[0]) + HeldByWriters(ws[1..])
  }

  function HeldByConnector(c: Connector): seq<Request>
  {
    if c.CResend? || c.CReport? || c.CRequeue? then [c.req] else []
  }

  /** Requests that were accepted but not written, wherever they are. */
  function Pending(s: State): seq<Request>
  {
    s.backlog + HeldByWriters(s.writers) + HeldByConnector(s.connector)
  }

  /** At most one reader and one writer run; the backlog is empty whenever a writer takes requests; the requests
      written, followed by at most one pending request, are the requests accepted, in order; and
      readRoutineQuit is not closed twice. */
  predicate Safe(s: State)
  {
    && |s.writers| <= 1 && |s.readers| <= 1
    && (WSelect in s.writers ==> s.backlog == [])
    && |Pending(s)| <= 1 && s.written + Pending(s) == s.accepted
    && (RClose in s.readers ==> !s.readerQuit)
  }

  /** Between the wait for the wait group and the start of new routines nothing else runs. */
  predicate Alone(c: Connector)
  {
    c.CDial? || c.CDrain? || c.CBacklog? || c.CResend? || c.CReport? || c.CRequeue? || c.CStart? || c.CStop?
  }

  /** The inductive invariant behind Safe. */
  predicate Inv(s: State)
  {
    && Safe(s)
    && s.wg == |s.writers| + |s.readers|
    && (Alone(s.connector) ==> s.wg == 0)
    && (HeldByConnector(s.connector) != [] || s.connector.CStart? ==> s.backlog == [])
    && (s.writers != [] && s.writers[0] != WExit ==> s.backlog == [])
    && (RRead in s.readers ==> !s.readerQuit)
  }

  lemma OneWriter(w: Writer)
    ensures HeldByWriters([w]) == HeldByWriter(w)
  {
    assert [w][1..] == [];
  }

  /** What the single writer means for the invariant. */
  lemma AsOneWriter(s: State)
    requires |s.writers| == 1 && HeldByConnector(s.connector) == []
    ensures s.writers == [s.writers[0]] && Pending(s) == s.backlog + HeldByWriter(s.writers[0])
  {
    OneWriter(s.writers[0]);
    assert s.writers == [s.writers[0]];
  }

  /** Steps in which the writer takes, writes or hands back a request. */
  predicate MovesRequest(step: Step) { step.Accept? || step.Written? || step.PutBack? }

  lemma WriterKeeps(s: State, step: Step)
    requires Inv(s) && ByWriter(step) && Enabled(s, step)
    ensures Inv(Next(s, step))
  {
    hide Inv, Next;
    if step.WriterDone? {
      WriterLeaves(s, step);
    } else if MovesRequest(step) {
      WriterMoves(s, step);
    } else {
      WriterHolds(s, step);
    }
  }

  lemma WriterLeaves(s: State, step: Step)
    requires Inv(s) && step.WriterDone? && Enabled(s, step)
    ensures Inv(Next(s, step))
  {
    hide HeldByWriters, Pending;
    assert step.i == 0 && s.writers == [WExit] && HeldByConnector(s.connector) == [];
    AsOneWriter(s);
    NoWriter(Next(s, step));
  }

  lemma WriterMoves(s: State, step: Step)
    requires Inv(s) && MovesRequest(step) && Enabled(s, step)
    ensures Inv(Next(s, step))
  {
    hide HeldByWriters, Pending;
    assert step.i == 0 && s.writers == [s.writers[0]] && HeldByConnector(s.connector) == [];
    AsOneWriter(s);
    AsOneWriter(Next(s, step));
  }

  /** In all other steps the writer keeps what it holds. */
  lemma WriterHolds(s: State, step: Step)
    requires Inv(s) && ByWriter(step) && !step.WriterDone? && !MovesRequest(step) && Enabled(s, step)
    ensures Inv(Next(s, step))
  {
    hide HeldByWriters, Pending;
    assert step.i == 0 && s.writers == [s.writers[0]] && HeldByConnector(s.connector) == [];
    var s' := Next(s, step);
    AsOneWriter(s);
    AsOneWriter(s');
    assert Pending(s') == Pending(s);
  }

  lemma NoWriter(s: State)
    requires s.writers == []
    ensures Pending(s) == s.backlog + HeldByConnector(s.connector)
  {
  }

  lemma ReaderKeeps(s: State, step: Step)
    requires Inv(s) && ByReader(step) && Enabled(s, step)
    ensures Inv(Next(s, step))
  {
    hide HeldByWriters, Pending;
    assert step.i == 0 && s.readers == [s.readers[0]];
    SamePending(s, Next(s, step));
  }

  lemma ConnectorKeeps(s: State, step: Step)
    requires Inv(s) && ConnectorCan(s, step)
    ensures Inv(ConnectorStep(s, step))
  {
    hide HeldByWriters, Pending;
    if Alone(s.connector) {
      AloneKeeps(s, step);
    } else {
      SamePending(s, ConnectorStep(s, step));
    }
  }

  lemma AloneKeeps(s: State, step: Step)
    requires Inv(s) && ConnectorCan(s, step) && Alone(s.connector)
    ensures Inv(ConnectorStep(s, step))
  {
    hide HeldByWriters, Pending;
    var s' := ConnectorStep(s, step);
    assert s.writers == [] && s.readers == [];
    NoWriter(s);
    if step.StartRoutines? {
      AsOneWriter(s');
    } else {
      NoWriter(s');
    }
  }

  lemma SamePending(s: State, s': State)
    requires s'.writers == s.writers && s'.backlog == s.backlog
    requires HeldByConnector(s'.connector) == HeldByConnector(s.connector)
    ensures Pending(s') == Pending(s)
  {
  }

  lemma StepKeeps(s: State, step: Step)
    requires Inv(s) && Enabled(s, step)
    ensures Inv(Next(s, step))
  {
    if ByWriter(step) {
      WriterKeeps(s, step);
    } else if ByReader(step) {
      ReaderKeeps(s, step);
    } else if !step.Timeout? && !step.Stop? {
      ConnectorKeeps(s, step);
    }
  }

  lemma {:induction false} RunKeeps(s: State, steps: seq<Step>)
    requires Inv(s) && Runs(s, steps)
    ensures Inv(Exec(s, steps))
    decreases |steps|
  {
    if steps != [] {
      StepKeeps(s, steps[0]);
      RunKeeps(Next(s, steps[0]), steps[1..]);
    }
  }

  /** Every run of the client is safe in its last state, hence in every state. */
  lemma EveryRunIsSafe(steps: seq<Step>)
    requires Runs(Init(), steps)
    ensures Safe(Exec(Init(), steps))
  {
    InitKeeps();
    RunKeeps(Init(), steps);
  }

  // ---------------------------------------------------------------- no send blocks for ever

  /** Reports a writer may still make. */
  function WriterReports(s: State): nat
  {
    if s.writers == [] || s.writers[0].WRequeue? || s.writers[0].WExit? then 0 else 1
  }

  function ReaderReports(s: State): nat
  {
    if s.readers == [] || s.readers[0].RExit? then 0 else 1
  }

  /** The room in reconnectAfter suffices for all reports that may still come, and the client has only stopped, if at
      all, because dialling failed, when no routine was left. */
  predicate Room(s: State)
  {
    && Inv(s) && s.reports <= REPORTS_CAPACITY
    && (s.stopped ==> s.connector.CGone?) && (s.connector.CGone? ==> s.wg == 0)
    && var due := s.reports + WriterReports(s) + ReaderReports(s);
    && (s.connector.CSelect? ==> due <= 2)
    && (s.connector.CWait? ==> due <= 1)
    && (s.connector.CBacklog? || s.connector.CResend? || s.connector.CReport? || s.connector.CStart? ==> s.reports == 0)
  }

  /** A report finds room in the channel, or the reconnect goroutine takes one next: it is at its select, and the
      client is not stopped, so that it cannot leave instead. */
  predicate Heard(s: State) { s.reports < REPORTS_CAPACITY || (s.connector.CSelect? && !s.stopped) }

  /** Whoever is about to send on a channel can do so. */
  predicate NoSendBlocks(s: State)
  {
    && (forall w | w in s.writers && (w.WReport? || w.WPingReport?) :: Heard(s))
    && (forall r | r in s.readers && r.RReport? :: Heard(s))
    && (forall w | w in s.writers && w.WRequeue? :: |s.backlog| < BACKLOG_CAPACITY)
    && (s.connector.CReport? ==> s.reports < REPORTS_CAPACITY)
    && (s.connector.CRequeue? ==> |s.backlog| < BACKLOG_CAPACITY)
  }

  lemma WriterKeepsRoom(s: State, step: Step)
    requires Room(s) && ByWriter(step) && Enabled(s, step) && Inv(Next(s, step))
    ensures Room(Next(s, step))
  {
    hide Inv;
    Singles(s);
    assert step.i == 0 && s.writers == [s.writers[0]];
  }

  lemma ReaderKeepsRoom(s: State, step: Step)
    requires Room(s) && ByReader(step) && Enabled(s, step) && Inv(Next(s, step))
    ensures Room(Next(s, step))
  {
    hide Inv;
    Singles(s);
    assert step.i == 0 && s.readers == [s.readers[0]];
  }

  lemma ConnectorKeepsRoom(s: State, step: Step)
    requires Room(s) && ConnectorCan(s, step) && Inv(ConnectorStep(s, step))
    ensures Room(ConnectorStep(s, step))
  {
    hide Inv;
    Singles(s);
  }

  lemma Singles(s: State)
    requires Inv(s)
    ensures |s.writers| <= 1 && |s.readers| <= 1 && s.wg == |s.writers| + |s.readers|
    ensures Alone(s.connector) ==> s.writers == [] && s.readers == []
  {
    hide Pending;
  }

  lemma StepKeepsRoom(s: State, step: Step)
    requires Room(s) && Enabled(s, step) && !step.Timeout? && !step.Stop?
    ensures Room(Next(s, step))
  {
    hide Room, Inv;
    assert Inv(s) by { RoomIsInv(s); }
    StepKeeps(s, step);
    if ByWriter(step) {
      WriterKeepsRoom(s, step);
    } else if ByReader(step) {
      ReaderKeepsRoom(s, step);
    } else {
      ConnectorKeepsRoom(s, step);
    }
  }

  lemma RoomIsInv(s: State)
    requires Room(s)
    ensures Inv(s)
  {
  }

  lemma {:induction false} RunKeepsRoom(s: State, steps: seq<Step>)
    requires Room(s) && Runs(s, steps) && Only(steps, false, false)
    ensures Room(Exec(s, steps))
    decreases |steps|
  {
    if steps != [] {
      hide Room, Next, Enabled;
      StepKeepsRoom(s, steps[0]);
      RunKeepsRoom(Next(s, steps[0]), steps[1..]);
    }
  }

  lemma RoomToSend(s: State)
    requires Room(s)
    ensures NoSendBlocks(s)
  {
    hide Pending;
    if s.writers != [] { assert s.writers == [s.writers[0]]; }
    if s.readers != [] { assert s.readers == [s.readers[0]]; }
  }

  /** Callers report timeouts, or the client is stopped from outside, only if that is allowed. */
  predicate Only(steps: seq<Step>, timeouts: bool, stops: bool)
  {
    forall step | step in steps :: (step.Timeout? ==> timeouts) && (step.Stop? ==> stops)
  }

  /** Capacity one suffices for the reports of the reader, the writer and the resend: no send blocks in a run in which
      no caller reports a timeout and the client is not stopped from outside. */
  lemma NoSendBlocksUndisturbed(steps: seq<Step>)
    requires Runs(Init(), steps) && Only(steps, false, false)
    ensures NoSendBlocks(Exec(Init(), steps))
  {
    hide Runs, Exec, Room, NoSendBlocks;
    InitKeeps();
    RunKeepsRoom(Init(), steps);
    RoomToSend(Exec(Init(), steps));
  }

  // ---------------------------------------------------------------- sends that block for ever

  /** The writer cannot report its error, and the reconnect goroutine waits for the writer or has left. */
  predicate Deadlocked(s: State, req: Request)
  {
    && Inv(s) && s.writers == [WReport(req)] && s.reports == REPORTS_CAPACITY
    && (s.connector.CWait? || s.connector.CGone?)
  }

  lemma {:induction false} DeadlockedForEver(s: State, req: Request, steps: seq<Step>)
    requires Deadlocked(s, req) && Runs(s, steps)
    ensures Deadlocked(Exec(s, steps), req)
    decreases |steps|
  {
    if steps != [] {
      hide Safe, Pending;
      StepKeeps(s, steps[0]);
      if ByReader(steps[0]) { assert steps[0].i == 0; }
      DeadlockedForEver(Next(s, steps[0]), req, steps[1..]);
    }
  }

  lemma StepThen(s: State, step: Step, rest: seq<Step>)
    requires Enabled(s, step) && Runs(Next(s, step), rest)
    ensures Runs(s, [step] + rest) && Exec(s, [step] + rest) == Exec(Next(s, step), rest)
  {
    assert ([step] + rest)[1..] == rest;
  }

  /** The reader fails and reports. */
  function AfterReport(rest: seq<Step>): seq<Step>
  {
    [ReadFails(0)] + ([CloseQuit(0)] + ([ReportRead(0)] + rest))
  }

  lemma ReaderReported(rest: seq<Step>)
    requires Runs(Reported(), rest)
    ensures Runs(Init(), AfterReport(rest)) && Exec(Init(), AfterReport(rest)) == Exec(Reported(), rest)
  {
    hide Runs, Exec;
    var s1 := Next(Init(), ReadFails(0));
    var s2 := Next(s1, CloseQuit(0));
    assert Next(s2, ReportRead(0)) == Reported();
    StepThen(s2, ReportRead(0), rest);
    StepThen(s1, CloseQuit(0), [ReportRead(0)] + rest);
    StepThen(Init(), ReadFails(0), [CloseQuit(0)] + ([ReportRead(0)] + rest));
  }

  /** The reader's report is in the channel. */
  function Reported(): State { State([WSelect], [RExit], CSelect, 2, 1, [], true, false, [], []) }

  /** Then the reconnect goroutine takes it and waits for the routines, and a caller's report takes its place. */
  function TimeoutRun(req: Request): seq<Step> { AfterReport([TakeReport] + ([Timeout] + FailingWrite(req))) }

  /** Or the client is stopped and the reconnect goroutine leaves without taking it. */
  function StopRun(req: Request): seq<Step> { AfterReport([Stop] + ([SeeStopped] + FailingWrite(req))) }

  /** Meanwhile the writer takes another request and fails to write it. */
  function FailingWrite(req: Request): seq<Step> { [Accept(0, req)] + ([WriteFails(0)] + []) }

  lemma WriteFailed(s: State, req: Request)
    requires s.writers == [WSelect]
    ensures Runs(s, FailingWrite(req))
    ensures Exec(s, FailingWrite(req)) == s.(writers := [WReport(req)], accepted := s.accepted + [req])
  {
    var s1 := Next(s, Accept(0, req));
    StoppedRun(Next(s1, WriteFails(0)));
    StepThen(s1, WriteFails(0), []);
    StepThen(s, Accept(0, req), [WriteFails(0)] + []);
  }

  lemma StoppedRun(s: State)
    ensures Runs(s, []) && Exec(s, []) == s
  {
  }

  /** Two steps behind the reader's report lead to a deadlock if they leave the channel full and the reconnect goroutine
      away from its select. */
  lemma DeadlocksAfter(step1: Step, step2: Step, req: Request)
    requires Enabled(Reported(), step1) && Enabled(Next(Reported(), step1), step2)
    requires var s := Next(Next(Reported(), step1), step2);
             s.writers == [WSelect] && s.reports == REPORTS_CAPACITY && (s.connector.CWait? || s.connector.CGone?)
    ensures var steps := AfterReport([step1] + ([step2] + FailingWrite(req)));
            Runs(Init(), steps) && Deadlocked(Exec(Init(), steps), req)
  {
    hide Runs, Exec, Inv, Init, Next, Enabled, FailingWrite, AfterReport;
    var s1 := Next(Reported(), step1);
    var s2 := Next(s1, step2);
    WriteFailed(s2, req);
    StepThen(s1, step2, FailingWrite(req));
    StepThen(Reported(), step1, [step2] + FailingWrite(req));
    ReaderReported([step1] + ([step2] + FailingWrite(req)));
    InitKeeps();
    RunKeeps(Init(), AfterReport([step1] + ([step2] + FailingWrite(req))));
  }

  /** A single report from a timed-out caller is one too many: it takes the place in the channel that the writer
      needs, while the reconnect goroutine waits for the writer. */
  lemma TimeoutDeadlocks(req: Request)
    ensures Runs(Init(), TimeoutRun(req)) && Deadlocked(Exec(Init(), TimeoutRun(req)), req)
  {
    DeadlocksAfter(TakeReport, Timeout, req);
  }

  /** So is stopping the client: the reconnect goroutine may leave while the reader's report is in the channel. Stopping
      then waits for the writer, which waits for room. */
  lemma StopDeadlocks(req: Request)
    ensures Runs(Init(), StopRun(req)) && Deadlocked(Exec(Init(), StopRun(req)), req)
  {
    DeadlocksAfter(Stop, SeeStopped, req);
  }

  lemma DeadlockedBlocks(s: State, req: Request)
    requires Deadlocked(s, req)
    ensures !NoSendBlocks(s)
  {
    assert WReport(req) in s.writers;
  }

  /** No send ever blocks, whatever the interleaving, if and only if callers do not report timeouts and the client is
      not stopped from outside. */
  lemma NoSendBlocksIff(timeouts: bool, stops: bool)
    ensures (forall steps | Runs(Init(), steps) && Only(steps, timeouts, stops) :: NoSendBlocks(Exec(Init(), steps)))
            <==> !timeouts && !stops
  {
    hide Runs, Exec, NoSendBlocks, Deadlocked;
    var req := Request(0);
    if timeouts {
      TimeoutDeadlocks(req);
      DeadlockedBlocks(Exec(Init(), TimeoutRun(req)), req);
      assert Only(TimeoutRun(req), timeouts, stops);
    } else if stops {
      StopDeadlocks(req);
      DeadlockedBlocks(Exec(Init(), StopRun(req)), req);
      assert Only(StopRun(req), timeouts, stops);
    } else {
      forall steps | Runs(Init(), steps) && Only(steps, timeouts, stops) ensures NoSendBlocks(Exec(Init(), steps)) {
        NoSendBlocksUndisturbed(steps);
      }
    }
  }

  lemma InitKeeps()
    ensures Inv(Init()) && Room(Init())
  {
    OneWriter(WSelect);
  }
}
