/** What the reconnect protocol is for: no failure goes unheard, and whatever has happened, every accepted request can
    still be delivered.

    The second is a statement about possibilities: from every state that a run can reach without caller reports and
    outside stops, and in which dialling has not failed for good, there is a run that ends with all accepted requests
    written and a fresh pair of routines at work.
 */
module Recovery {
  import opened Reconnect

  // ---------------------------------------------------------------- no failure goes unheard

  /** At the select a report is there or will come: from the reader once it has closed readRoutineQuit, from the writer
      otherwise. A failed resend has reported. The reconnect goroutine only leaves a stopped client. */
  predicate Alert(s: State)
  {
    && (s.connector.CSelect? && !s.stopped ==>
          s.reports + (if s.readerQuit then ReaderReports(s) else WriterReports(s)) >= 1)
    && (s.connector.CRequeue? ==> s.reports >= 1)
    && (s.connector.CGone? ==> s.stopped)
  }

  lemma StepKeepsAlert(s: State, step: Step)
    requires Inv(s) && Alert(s) && Enabled(s, step)
    ensures Alert(Next(s, step))
  {
    Singles(s);
    ReaderBeforeQuit(s);
    hide Inv;
    if ByWriter(step) {
      WriterKeepsAlert(s, step);
    } else if ByReader(step) {
      assert step.i == 0 && s.readers == [s.readers[0]];
    }
  }

  lemma WriterKeepsAlert(s: State, step: Step)
    requires |s.writers| <= 1 && Alert(s) && ByWriter(step) && Enabled(s, step)
    ensures Alert(Next(s, step))
  {
    assert step.i == 0 && s.writers == [s.writers[0]];
  }

  lemma ReaderBeforeQuit(s: State)
    requires Inv(s)
    ensures RRead in s.readers || RClose in s.readers ==> !s.readerQuit
  {
    hide Pending;
  }

  lemma {:induction false} RunKeepsAlert(s: State, steps: seq<Step>)
    requires Inv(s) && Alert(s) && Runs(s, steps)
    ensures Alert(Exec(s, steps))
    decreases |steps|
  {
    if steps != [] {
      hide Inv, Alert, Next, Enabled;
      StepKeeps(s, steps[0]);
      StepKeepsAlert(s, steps[0]);
      RunKeepsAlert(Next(s, steps[0]), steps[1..]);
    }
  }

  /** In every run, unless the client is stopped, the reconnect goroutine has not left; and if both routines have ended
      while it is at its select, a report is waiting for it. */
  lemma NoFailureUnheard(steps: seq<Step>)
    requires Runs(Init(), steps)
    ensures var s := Exec(Init(), steps);
            !s.stopped ==>
              && !s.connector.CGone?
              && (s.connector.CSelect? && s.writers == [] && s.readers == [] ==> s.reports > 0)
  {
    hide Runs, Exec, Inv;
    InitKeeps();
    RunKeepsAlert(Init(), steps);
  }

  // ---------------------------------------------------------------- everything can still be delivered

  /** The invariant of undisturbed runs: there is room for all reports, none goes missing, and a report that the writer
      has not made is one of the reader, which has closed readRoutineQuit before. */
  predicate Alive(s: State)
  {
    Room(s) && Alert(s) && Attributed(s)
  }

  predicate Attributed(s: State)
  {
    && ((s.connector.CSelect? && s.reports > 0) || s.connector.CWait? ==> WriterReports(s) == 0 || s.readerQuit)
    && (RReport in s.readers ==> s.readerQuit)
  }

  lemma StepKeepsAlive(s: State, step: Step)
    requires Alive(s) && Enabled(s, step) && !step.Timeout? && !step.Stop?
    ensures Alive(Next(s, step))
  {
    hide Room, Inv, Alert, Attributed, Next, Enabled;
    RoomIsInv(s);
    StepKeepsRoom(s, step);
    StepKeepsAlert(s, step);
    if ByWriter(step) {
      WriterKeepsAttributed(s, step);
    } else if ByReader(step) {
      ReaderKeepsAttributed(s, step);
    } else {
      ConnectorKeepsAttributed(s, step);
    }
  }

  lemma WriterKeepsAttributed(s: State, step: Step)
    requires Alive(s) && ByWriter(step) && Enabled(s, step)
    ensures Attributed(Next(s, step))
  {
    Singles(s);
    hide Inv;
    assert step.i == 0 && s.writers == [s.writers[0]];
  }

  lemma ReaderKeepsAttributed(s: State, step: Step)
    requires Alive(s) && ByReader(step) && Enabled(s, step)
    ensures Attributed(Next(s, step))
  {
    Singles(s);
    hide Inv;
    assert step.i == 0 && s.readers == [s.readers[0]];
  }

  lemma ConnectorKeepsAttributed(s: State, step: Step)
    requires Alive(s) && !ByWriter(step) && !ByReader(step) && Enabled(s, step) && !step.Timeout? && !step.Stop?
    ensures Attributed(Next(s, step))
  {
    Singles(s);
    hide Inv;
  }

  lemma {:induction false} RunKeepsAlive(s: State, steps: seq<Step>)
    requires Alive(s) && Runs(s, steps) && Only(steps, false, false)
    ensures Alive(Exec(s, steps))
    decreases |steps|
  {
    if steps != [] {
      hide Alive, Next, Enabled;
      StepKeepsAlive(s, steps[0]);
      RunKeepsAlive(Next(s, steps[0]), steps[1..]);
    }
  }

  /** Dialling has not failed for good. */
  predicate Working(s: State) { !s.connector.CStop? && !s.connector.CGone? }

  /** A fresh pair of routines is at work and nothing is pending. */
  predicate Fresh(s: State)
  {
    && s.connector.CSelect? && s.writers == [WSelect] && s.readers == [RRead]
    && s.reports == 0 && s.backlog == [] && !s.readerQuit && !s.stopped
  }

  /** A step of the protocol that brings it closer to a fresh pair of routines. */
  function Helpful(s: State): Step
  {
    match s.connector
    case CSelect => if s.reports > 0 then TakeReport else HelpfulAtSelect(s)
    case CWait =>
      if s.wg == 0 then AllDone
      else if s.readers != [] then HelpfulReader(s.readers[0], true) else HelpfulLeave(s)
    case CDial => Dialled
    case CDrain => if s.reports > 0 then DrainOne else Drained
    case CBacklog => if s.backlog != [] then TakeBacklog else NoBacklog
    case CResend(_) => Resent
    case CReport(_) => ReportResend
    case CRequeue(_) => PutBackResend
    case CStart => StartRoutines
    case CStop => StopClient
    case CGone => SeeStopped
  }

  /** What brings a reader to its end, or lets a working one be. */
  function HelpfulReader(r: Reader, leave: bool): Step
  {
    match r
    case RRead => if leave then ReadEnds(0) else ReadFails(0)
    case RClose => CloseQuit(0)
    case RReport => ReportRead(0)
    case RExit => ReaderDone(0)
  }

  /** Without a report: the reader first, then the writer, which pings to find out about a lost reader. */
  function HelpfulAtSelect(s: State): Step
  {
    if s.readers != [] && s.readers[0] != RRead then HelpfulReader(s.readers[0], false)
    else if s.writers == [] then TakeReport
    else match s.writers[0]
      case WSelect => Tick(0)
      case WWrite(_) => Written(0)
      case WReport(_) => ReportWrite(0)
      case WRequeue(_) => PutBack(0)
      case WPing => if s.readers == [] then PingFails(0) else Pinged(0)
      case WPingReport => ReportPing(0)
      case WExit => WriterDone(0)
  }

  /** What brings the writer to its end once it is waited for. */
  function HelpfulLeave(s: State): Step
  {
    if s.writers == [] then AllDone
    else match s.writers[0]
      case WSelect => SeeQuit(0)
      case WWrite(_) => Written(0)
      case WReport(_) => ReportWrite(0)
      case WRequeue(_) => PutBack(0)
      case WPing => Pinged(0)
      case WPingReport => ReportPing(0)
      case WExit => WriterDone(0)
  }

  /** How far it is to a fresh pair of routines. */
  function Distance(s: State): nat
  {
    match s.connector
    case CReport(_) => 100
    case CRequeue(_) => 99
    case CSelect => 60 + if s.reports > 0 then 0 else 1 + ReaderDistance(s.readers) + SelectDistance(s.writers)
    case CWait => 30 + ReaderDistance(s.readers) + LeaveDistance(s.writers)
    case CDial => 20
    case CDrain => 15 + s.reports
    case CBacklog => 12
    case CResend(_) => 11
    case CStart => 10
    case CStop => 0
    case CGone => 0
  }

  function ReaderDistance(rs: seq<Reader>): nat
  {
    if rs == [] then 0
    else match rs[0]
      case RRead => 2
      case RClose => 4
      case RReport => 3
      case RExit => 1
  }

  function SelectDistance(ws: seq<Writer>): nat
  {
    if ws == [] then 0
    else match ws[0]
      case WWrite(_) => 5
      case WSelect => 4
      case WPing => 3
      case WPingReport => 2
      case WReport(_) => 2
      case _ => 1
  }

  function LeaveDistance(ws: seq<Writer>): nat
  {
    if ws == [] then 0
    else match ws[0]
      case WWrite(_) => 6
      case WPing => 6
      case WSelect => 5
      case WReport(_) => 4
      case WPingReport => 4
      case WRequeue(_) => 3
      case WExit => 1
  }

  /** The step can be taken, takes no further request, and leads closer or all the way. */
  predicate Helps(s: State, step: Step)
  {
    && Enabled(s, step) && !step.Timeout? && !step.Stop?
    && var s' := Next(s, step);
    && s'.accepted == s.accepted && Working(s') && (Fresh(s') || Distance(s') < Distance(s))
  }

  lemma HelpfulHelps(s: State)
    requires Alive(s) && Working(s) && !Fresh(s)
    ensures Helps(s, Helpful(s))
  {
    hide Helps;
    if s.connector.CSelect? {
      if s.reports > 0 {
        TakingHelps(s);
      } else if s.readers != [] && s.readers[0] != RRead {
        ReaderHelps(s);
      } else {
        WriterHelps(s);
      }
    } else if s.connector.CWait? {
      WaitingHelps(s);
    } else {
      ConnectorHelps(s);
    }
  }

  lemma TakingHelps(s: State)
    requires Alive(s) && s.connector.CSelect? && s.reports > 0
    ensures Helps(s, TakeReport)
  {
    Singles(s);
    hide Inv;
  }

  lemma ReaderHelps(s: State)
    requires Alive(s) && s.connector.CSelect? && s.reports == 0 && s.readers != [] && s.readers[0] != RRead
    ensures Helps(s, HelpfulReader(s.readers[0], false))
  {
    Singles(s);
    hide Inv;
    assert s.readers == [s.readers[0]];
  }

  lemma WriterHelps(s: State)
    requires Alive(s) && s.connector.CSelect? && s.reports == 0 && !Fresh(s)
    requires s.readers != [] ==> s.readers[0] == RRead
    ensures Helps(s, HelpfulAtSelect(s))
  {
    Singles(s);
    ReaderBeforeQuit(s);
    EmptyBacklog(s);
    hide Inv;
    assert s.readers == [] || s.readers == [RRead];
    assert s.writers == [s.writers[0]];
  }

  lemma EmptyBacklog(s: State)
    requires Inv(s)
    ensures s.writers != [] && s.writers[0] != WExit ==> s.backlog == []
    ensures HeldByConnector(s.connector) != [] || s.connector.CStart? ==> s.backlog == []
  {
    hide Pending;
  }

  lemma WaitingHelps(s: State)
    requires Alive(s) && s.connector.CWait?
    ensures Helps(s, Helpful(s))
  {
    hide Helps, Alive, HelpfulReader, HelpfulLeave;
    if s.readers != [] {
      LeavingReaderHelps(s);
    } else {
      LeavingWriterHelps(s);
    }
  }

  lemma LeavingReaderHelps(s: State)
    requires Alive(s) && s.connector.CWait? && s.readers != []
    ensures Helps(s, Helpful(s))
  {
    Singles(s);
    hide Inv;
    assert s.readers == [s.readers[0]];
  }

  lemma LeavingWriterHelps(s: State)
    requires Alive(s) && s.connector.CWait? && s.readers == []
    ensures Helps(s, Helpful(s))
  {
    Singles(s);
    EmptyBacklog(s);
    hide Inv;
    if s.writers != [] { assert s.writers == [s.writers[0]]; }
  }

  lemma ConnectorHelps(s: State)
    requires Alive(s) && Working(s) && !s.connector.CSelect? && !s.connector.CWait?
    ensures Helps(s, Helpful(s))
  {
    Singles(s);
    EmptyBacklog(s);
    hide Inv;
  }

  /** Steps that lead to a fresh pair of routines without taking further requests. */
  lemma {:induction false} Recover(s: State) returns (steps: seq<Step>)
    requires Alive(s) && Working(s)
    ensures Runs(s, steps) && Only(steps, false, false)
    ensures Alive(Exec(s, steps)) && Fresh(Exec(s, steps)) && Exec(s, steps).accepted == s.accepted
    decreases if Fresh(s) then 0 else 1 + Distance(s)
  {
    if Fresh(s) {
      steps := [];
    } else {
      hide Alive, Helpful, Distance, Runs, Exec;
      HelpfulHelps(s);
      StepKeepsAlive(s, Helpful(s));
      var rest := Recover(Next(s, Helpful(s)));
      StepThen(s, Helpful(s), rest);
      steps := [Helpful(s)] + rest;
    }
  }

  /** Whatever has happened in an undisturbed run, as long as dialling has not failed for good, the client can go on to
      write every request it has accepted. */
  lemma EverythingCanBeDelivered(steps: seq<Step>) returns (more: seq<Step>)
    requires Runs(Init(), steps) && Only(steps, false, false) && Working(Exec(Init(), steps))
    ensures var s := Exec(Init(), steps);
            && Runs(s, more) && Only(more, false, false)
            && Exec(s, more).written == s.accepted && Fresh(Exec(s, more))
  {
    hide Runs, Exec, Alive, Room, Inv;
    AliveAtStart();
    RunKeepsAlive(Init(), steps);
    more := Recover(Exec(Init(), steps));
    FreshHasDelivered(Exec(Exec(Init(), steps), more));
  }

  lemma AliveAtStart()
    ensures Alive(Init())
  {
    InitKeeps();
  }

  lemma FreshHasDelivered(s: State)
    requires Alive(s) && Fresh(s)
    ensures s.written == s.accepted
  {
    OneWriter(WSelect);
    assert Pending(s) == [];
    assert s.written + [] == s.written;
  }

  // ---------------------------------------------------------------- failed resends, and stopping

  /** Three steps in a row. */
  lemma ThreeSteps(s: State, a: Step, b: Step, c: Step)
    requires Enabled(s, a) && Enabled(Next(s, a), b) && Enabled(Next(Next(s, a), b), c)
    ensures Runs(s, [a, b, c]) && Exec(s, [a, b, c]) == Next(Next(Next(s, a), b), c)
  {
    hide Runs, Exec, Enabled, Next;
    assert [c] + [] == [c] && [b] + [c] == [b, c] && [a] + [b, c] == [a, b, c];
    var s1 := Next(s, a);
    var s2 := Next(s1, b);
    StoppedRun(Next(s2, c));
    StepThen(s2, c, []);
    StepThen(s1, b, [c]);
    StepThen(s, a, [b, c]);
  }

  /** A resend can fail wherever it happens. If the channel has room, the request is then back in the backlog, a report
      is waiting, and the reconnect goroutine is ready to take it. */
  lemma FailedResendIsKept(steps: seq<Step>)
    requires Runs(Init(), steps)
    requires var s := Exec(Init(), steps); s.connector.CResend? && s.reports == 0
    ensures var s := Exec(Init(), steps);
            var more := [ResendFails, ReportResend, PutBackResend];
            && Runs(s, more)
            && Exec(s, more) == s.(connector := CSelect, reports := 1, backlog := [s.connector.req])
            && s.accepted == s.written + [s.connector.req]
  {
    hide Runs, Exec;
    InitKeeps();
    RunKeeps(Init(), steps);
    var s := Exec(Init(), steps);
    ThreeSteps(s, ResendFails, ReportResend, PutBackResend);
  }

  /** A client that is stopped while it waits for requests and responses can leave at once: its writer needs no failed
      read to do so, and nothing it accepted is left to write. */
  lemma IdleClientLeaves(steps: seq<Step>)
    requires Runs(Init(), steps)
    requires var s := Exec(Init(), steps); s.stopped && s.writers == [WSelect] && s.readers == [RRead]
    ensures var s := Exec(Init(), steps);
            && Runs(s, [SeeQuit(0), WriterDone(0), ReadEnds(0)])
            && var s' := Exec(s, [SeeQuit(0), WriterDone(0), ReadEnds(0)]);
            && Enabled(s', ReaderDone(0))
            && Next(s', ReaderDone(0)) == s.(writers := [], readers := [], wg := 0)
            && s.written == s.accepted
  {
    hide Runs, Exec;
    InitKeeps();
    RunKeeps(Init(), steps);
    var s := Exec(Init(), steps);
    ThreeSteps(s, SeeQuit(0), WriterDone(0), ReadEnds(0));
    OneWriter(WSelect);
    assert Pending(s) == [];
    assert s.written + [] == s.written;
  }
}
