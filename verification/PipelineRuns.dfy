/** Runs of the pipeline that show which bounds in its theorems are needed: one that loses any given number
    of commands, one in which the camera is restored because the 32-bit difference has wrapped, and one in
    which it is restored although three commands have been lost. */
module PipelineRuns {
  import opened Numerals
  import opened UartCodec
  import opened Pipeline

  ghost predicate Reachable(s: State) { exists actions :: Run(Initial(), actions) == s }

  lemma StartOfRun() returns (s: State)
    ensures s == Initial() && Reachable(s)
  {
    s := Initial();
    assert Run(Initial(), []) == s;
  }

  lemma Step(s: State, a: Action) returns (t: State)
    requires Reachable(s)
    ensures t == Apply(s, a) && Reachable(t)
  {
    var actions :| Run(Initial(), actions) == s;
    t := Apply(s, a);
    assert (actions + [a])[..|actions|] == actions;
    assert Run(Initial(), actions + [a]) == t;
  }

  lemma ReachableInv(s: State)
    requires Reachable(s)
    ensures Queues(s) && JobsOk(s) && TotalsOk(s)
  {
    hide Inv, Apply, Run;
    var actions :| Run(Initial(), actions) == s;
    InitialInv();
    RunKeepsInv(Initial(), actions);
    InvJobs(s);
  }

  /** An evaluation that is due in a reachable state, while the outstanding commands fit an int32_t. */
  lemma Evaluation(s: State, a: Action) returns (t: State)
    requires Reachable(s) && IsEvaluation(s, a) && 0 <= Outstanding(s) < 0x1_0000_0000
    ensures t == Apply(s, a) && Reachable(t) && t.camera == Evaluate(s.camera, Signed(Outstanding(s)))
  {
    hide Apply, Evaluate, Outstanding, Queues, JobsOk, TotalsOk;
    t := Step(s, a);
    ReachableInv(s);
    CameraStep(s, a);
    EvaluatesOutstanding(s);
  }

  /** Between two commands: `queued` commands wait, `lost` have been lost, no error is queued, and the UART
      task is idle or about to write. */
  ghost predicate Between(s: State, uart: UartPc, queued: nat, lost: nat, camera: Camera) {
    && Reachable(s) && s.ws == WsIdle && s.err == ErrIdle && s.errQueue == []
    && s.uart == uart && (uart == UartIdle || uart.Writing?)
    && |s.cmdQueue| == queued && Lost(s) == lost && s.camera == camera
  }

  function Taken(uart: UartPc): nat { if uart.Writing? then 1 else 0 }

  const SOME_CMD := DataCmd(1, 0, 0)

  lemma EnqueueOne(s: State, uart: UartPc, queued: nat, lost: nat, camera: Camera) returns (t: State)
    requires Between(s, uart, queued, lost, camera) && queued < QUEUE_CAPACITY
    requires queued + 1 + Taken(uart) + lost < 0x8000_0000
    ensures Between(t, uart, queued + 1, lost, Evaluate(camera, queued + 1 + Taken(uart) + lost))
  {
    hide Evaluate, CmdDiff, Reachable, ParseResponse, FormatCommand;
    t := Step(s, WsMessage(SOME_CMD));
    t := Step(t, WsEnqueue);
    t := Step(t, WsCount);
    t := Evaluation(t, WsEvaluate);
  }

  lemma {:induction false} Enqueue(s: State, uart: UartPc, queued: nat, camera: Camera) returns (t: State)
    requires Between(s, uart, queued, 0, camera) && queued <= QUEUE_CAPACITY
    requires camera == CameraAt(queued + Taken(uart))
    ensures Between(t, uart, QUEUE_CAPACITY, 0, SUSPENDED)
    decreases QUEUE_CAPACITY - queued
  {
    hide Between;
    if queued == QUEUE_CAPACITY {
      t := s;
    } else {
      t := EnqueueOne(s, uart, queued, 0, camera);
      t := Enqueue(t, uart, queued + 1, CameraAt(queued + 1 + Taken(uart)));
    }
  }

  /** The camera state once `n` commands came in and none was confirmed. */
  function CameraAt(n: nat): Camera { if n < DEGRADE then NORMAL else if n < SUSPEND then DEGRADED else SUSPENDED }

  /** A message for which the queue stays full: the drop is reported and counted. */
  lemma DropOne(s: State, uart: UartPc, lost: nat, camera: Camera) returns (t: State)
    requires Between(s, uart, QUEUE_CAPACITY, lost, camera)
    ensures Reachable(t) && t.err == ErrEvaluating && t.camera == camera
    ensures Lost(t) == lost + 1 && Outstanding(t) == QUEUE_CAPACITY + Taken(uart) + lost + 1
    ensures Between(Apply(t, ErrEvaluate), uart, QUEUE_CAPACITY, lost + 1, Apply(t, ErrEvaluate).camera)
  {
    hide Evaluate, CmdDiff, Reachable, ParseResponse, FormatCommand;
    t := Step(s, WsMessage(SOME_CMD));
    t := Step(t, WsTimeout);
    t := Step(t, WsPostDrop);
    t := Step(t, ErrTake);
    t := Step(t, ErrCount);
    var _ := Step(t, ErrEvaluate);
  }

  /** Any number of commands can be lost; up to MAX_LOST the camera stays suspended. */
  lemma {:induction false} LoseMany(s: State, uart: UartPc, n: nat) returns (t: State)
    requires Between(s, uart, QUEUE_CAPACITY, 0, SUSPENDED)
    ensures Between(t, uart, QUEUE_CAPACITY, n, t.camera) && (n <= MAX_LOST ==> t.camera == SUSPENDED)
  {
    hide IsEvaluation, Reachable, Lost, Outstanding, Apply;
    if n == 0 {
      t := s;
    } else {
      t := LoseMany(s, uart, n - 1);
      var due := DropOne(t, uart, n - 1, t.camera);
      t := Step(due, ErrEvaluate);
      if n <= MAX_LOST {
        EvaluationIsDue(due);
        t := Evaluation(due, ErrEvaluate);
      }
    }
  }

  lemma EvaluationIsDue(s: State)
    requires s.err == ErrEvaluating
    ensures IsEvaluation(s, ErrEvaluate)
  {
  }

  /** Every number of lost commands is the one of some run. */
  lemma AnyNumberLost(n: nat)
    ensures exists actions :: Lost(Run(Initial(), actions)) == n
  {
    hide Apply, Run, Lost, Evaluate;
    var s := StartOfRun();
    InitialBetween();
    s := Enqueue(s, UartIdle, 0, NORMAL);
    s := LoseMany(s, UartIdle, n);
    var actions :| Run(Initial(), actions) == s;
    assert Lost(Run(Initial(), actions)) == n;
  }

  lemma InitialBetween()
    ensures Reachable(Initial()) ==> Between(Initial(), UartIdle, 0, 0, NORMAL)
  {
  }

  function ReadyFrame(): string { ResponseText(RESP_READY, 0) }

  function AckFrame(): string { ResponseText(RESP_ACK, 0) }

  lemma FramesParse()
    ensures ParseResponse(ReadyFrame()).response == RESP_READY && ParseResponse(AckFrame()).response == RESP_ACK
  {
    hide ParseResponse;
    assert ReadyFrame() + "" == ReadyFrame() && AckFrame() + "" == AckFrame();
    ResponsesFit(RESP_READY, 0, "");
    ResponsesFit(RESP_ACK, 0, "");
  }

  /** The UART task takes the head of the queue. */
  lemma TakeHead(s: State) returns (t: State)
    requires Reachable(s) && s.uart == UartIdle && s.cmdQueue != []
    ensures Reachable(t) && t.uart == Writing(s.cmdQueue[0], 0) && t.cmdQueue == s.cmdQueue[1..]
    ensures t.log.jobs == s.log.jobs + [Job(s.cmdQueue[0], 0, InProgress)] && Lost(t) == Lost(s)
    ensures t.ws == s.ws && t.err == s.err && t.errQueue == s.errQueue && t.camera == s.camera
  {
    hide ParseResponse, FormatCommand, Reachable, ReadyFrame, AckFrame;
    FramesParse();
    t := Step(s, UartReceive(ReadyFrame()));
    t := Step(t, UartTake);
    JobAdded(s.log.jobs, Job(s.cmdQueue[0], 0, InProgress), Abandoned);
  }

  predicate InProgressLast(s: State) { s.log.jobs != [] && s.log.jobs[|s.log.jobs| - 1].outcome == InProgress }

  /** It writes the command it has taken. */
  lemma WriteTaken(s: State) returns (t: State)
    requires Reachable(s) && s.uart.Writing? && InProgressLast(s)
    ensures Reachable(t) && t.uart.Awaiting? && t.cmdQueue == s.cmdQueue && Lost(t) == Lost(s) && InProgressLast(t)
    ensures t.ws == s.ws && t.err == s.err && t.errQueue == s.errQueue && t.camera == s.camera
  {
    hide ParseResponse, FormatCommand, Reachable, CountJobs;
    t := Step(s, UartWrite);
    InProgressChanged(s.log.jobs, LastAttempts(s.log.jobs) + 1, InProgress, Abandoned);
  }

  /** An ACK is read. */
  lemma ReadAck(s: State) returns (t: State)
    requires Reachable(s) && s.uart.Awaiting?
    ensures Reachable(t) && t.uart.Acked? && t.cmdQueue == s.cmdQueue && t.log == s.log
    ensures t.ws == s.ws && t.err == s.err && t.errQueue == s.errQueue && t.camera == s.camera
  {
    hide ParseResponse, FormatCommand, Reachable, AckFrame;
    FramesParse();
    t := Step(s, UartRead(AckFrame()));
  }

  /** And counted. */
  lemma CountAck(s: State) returns (t: State)
    requires Reachable(s) && s.uart.Acked? && InProgressLast(s)
    ensures Reachable(t) && t.uart == UartEvaluating && t.cmdQueue == s.cmdQueue && Lost(t) == Lost(s)
    ensures t.ws == s.ws && t.err == s.err && t.errQueue == s.errQueue && t.camera == s.camera
  {
    hide ParseResponse, FormatCommand, Reachable, CountJobs;
    t := Step(s, UartCount);
    InProgressChanged(s.log.jobs, LastAttempts(s.log.jobs), Confirmed, Abandoned);
  }

  lemma AckTaken(s: State) returns (t: State)
    requires Reachable(s) && s.uart.Writing? && InProgressLast(s)
    ensures Reachable(t) && t.uart == UartEvaluating && t.cmdQueue == s.cmdQueue && Lost(t) == Lost(s)
    ensures t.ws == s.ws && t.err == s.err && t.errQueue == s.errQueue && t.camera == s.camera
  {
    hide Reachable, CountJobs;
    t := WriteTaken(s);
    t := ReadAck(t);
    t := CountAck(t);
  }

  /** The queued commands are confirmed one by one; with three lost the camera stays suspended. */
  lemma {:induction false} ConfirmAll(s: State, queued: nat) returns (t: State)
    requires Between(s, UartIdle, queued, 3, SUSPENDED) && queued <= QUEUE_CAPACITY
    ensures Between(t, UartIdle, 0, 3, SUSPENDED)
    decreases queued
  {
    hide ParseResponse, FormatCommand, Reachable, CountJobs, CmdDiff;
    if queued == 0 {
      t := s;
    } else {
      t := TakeHead(s);
      t := AckTaken(t);
      t := Evaluation(t, UartEvaluate);
      t := ConfirmAll(t, queued - 1);
    }
  }

  /** A camera that an evaluation restores after `lost` commands were lost for good. */
  ghost predicate RestoredDespite(s: State, a: Action, lost: nat) {
    Lost(s) == lost && s.camera == SUSPENDED && IsEvaluation(s, a) && Apply(s, a).camera == DEGRADED
  }

  /** Four is tight: a suspended camera can be restored with three commands lost, by the evaluation after an
      ACK for a command that was enqueued and not counted yet. */
  lemma RestoredAfterThreeLost()
    ensures exists actions :: RestoredDespite(Run(Initial(), actions), UartEvaluate, 3)
  {
    hide Run, Lost, Evaluate, Reachable, CmdDiff, ParseResponse, FormatCommand;
    var s := StartOfRun();
    InitialBetween();
    s := Enqueue(s, UartIdle, 0, NORMAL);
    s := LoseMany(s, UartIdle, 3);
    s := ConfirmAll(s, QUEUE_CAPACITY);
    s := LastOfThree(s);
    Witness(s, UartEvaluate, 3);
  }

  lemma LastOfThree(s: State) returns (t: State)
    requires Between(s, UartIdle, 0, 3, SUSPENDED)
    ensures Reachable(t) && RestoredDespite(t, UartEvaluate, 3)
  {
    hide CountJobs, Reachable, CmdDiff, ParseResponse, FormatCommand;
    t := Step(s, WsMessage(SOME_CMD));
    t := Step(t, WsEnqueue);
    t := TakeHead(t);
    t := AckTaken(t);
    var _ := Evaluation(t, UartEvaluate);
  }

  lemma Witness(s: State, a: Action, lost: nat)
    requires Reachable(s) && RestoredDespite(s, a, lost)
    ensures exists actions :: RestoredDespite(Run(Initial(), actions), a, lost)
  {
    hide RestoredDespite, Run;
    var actions :| Run(Initial(), actions) == s;
  }

  /** MAX_LOST is tight: with one command more lost, a full queue and a command in flight, the difference is
      2^31 and reads as negative, and a suspended camera is restored. */
  lemma RestoredByWrap()
    ensures exists actions :: RestoredDespite(Run(Initial(), actions), ErrEvaluate, MAX_LOST + 1)
  {
    hide Run, Lost, Reachable, CmdDiff, ParseResponse, FormatCommand, Apply;
    var s := StartOfRun();
    InitialBetween();
    s := EnqueueOne(s, UartIdle, 0, 0, NORMAL);
    s := TakeHead(s);
    var uart := s.uart;
    s := Enqueue(s, uart, 0, NORMAL);
    s := LoseMany(s, uart, MAX_LOST);
    s := DropOne(s, uart, MAX_LOST, SUSPENDED);
    EvaluationIsDue(s);
    var _ := Evaluation(s, ErrEvaluate);
    Witness(s, ErrEvaluate, MAX_LOST + 1);
  }

  lemma WritingIsInProgress(s: State)
    requires Reachable(s) && s.uart.Writing?
    ensures InProgressLast(s)
  {
    hide Reachable;
    ReachableInv(s);
  }

  /** The command in flight is confirmed, and the camera state evaluated. */
  lemma ConfirmTaken(s: State, uart: UartPc, queued: nat, lost: nat, camera: Camera) returns (t: State)
    requires Between(s, uart, queued, lost, camera) && uart.Writing? && queued + lost < 0x1_0000_0000
    ensures Between(t, UartIdle, queued, lost, Evaluate(camera, Signed(queued + lost)))
  {
    hide Evaluate, Signed, Reachable, CountJobs, ParseResponse, FormatCommand, CmdDiff;
    WritingIsInProgress(s);
    t := AckTaken(s);
    t := Evaluation(t, UartEvaluate);
  }

  /** A camera that an evaluation of the UART task suspends straight from NORMAL. */
  ghost predicate SuspendedAtOnce(s: State, lost: nat) {
    Lost(s) == lost && s.camera == NORMAL && Apply(s, UartEvaluate).camera == SUSPENDED
  }

  /** Past MAX_LOST the camera can be suspended straight from NORMAL: the difference has wrapped, two
      evaluations restore the camera, and two ACKs bring the difference back below 2^31. */
  lemma SuspendedFromNormal()
    ensures exists actions :: SuspendedAtOnce(Run(Initial(), actions), MAX_LOST + 2)
  {
    hide Run, SuspendedAtOnce, Between;
    var s := WrappedTwice();
    s := LastBeforeJump(s);
    var actions :| Run(Initial(), actions) == s;
    assert SuspendedAtOnce(Run(Initial(), actions), MAX_LOST + 2);
  }

  /** A full queue and a command in flight, MAX_LOST + 2 commands lost, and the camera back to NORMAL. */
  lemma WrappedTwice() returns (s: State)
    ensures s.uart.Writing? && Between(s, s.uart, QUEUE_CAPACITY, MAX_LOST + 2, NORMAL)
  {
    hide Run, Lost, Reachable, CmdDiff, ParseResponse, FormatCommand, Apply;
    s := StartOfRun();
    InitialBetween();
    s := EnqueueOne(s, UartIdle, 0, 0, NORMAL);
    s := TakeHead(s);
    var uart := s.uart;
    s := Enqueue(s, uart, 0, NORMAL);
    s := LoseMany(s, uart, MAX_LOST);
    s := DropOne(s, uart, MAX_LOST, SUSPENDED);
    EvaluationIsDue(s);
    s := Evaluation(s, ErrEvaluate);
    s := DropOne(s, uart, MAX_LOST + 1, DEGRADED);
    EvaluationIsDue(s);
    s := Evaluation(s, ErrEvaluate);
  }

  lemma LastBeforeJump(s: State) returns (t: State)
    requires s.uart.Writing? && Between(s, s.uart, QUEUE_CAPACITY, MAX_LOST + 2, NORMAL)
    ensures Reachable(t) && SuspendedAtOnce(t, MAX_LOST + 2)
  {
    hide CountJobs, Reachable, CmdDiff, ParseResponse, FormatCommand;
    t := ConfirmTaken(s, s.uart, QUEUE_CAPACITY, MAX_LOST + 2, NORMAL);
    t := TakeHead(t);
    t := AckTaken(t);
    var _ := Evaluation(t, UartEvaluate);
  }
}
