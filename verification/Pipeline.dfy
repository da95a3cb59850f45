/** The command pipeline as a protocol of three tasks over bounded queues: the WebSocket event handler,
    the UART task and the error task, with the counters and the camera state they share.

    Every action is one step that no other task can split: a queue operation, a UART write or read, a counter
    increment, or one evaluate_camera_state. In particular a command is in the queue before it is counted,
    and counted before the camera state is evaluated, and other tasks may act in between. */
module Pipeline {
  import opened Numerals
  import opened UartCodec

  const QUEUE_CAPACITY: nat := 10
  const MAX_ATTEMPTS: nat := 4   // the retry loop runs while i <= 3
  const DEGRADE: int := 6
  const SUSPEND: int := 10
  const RESTORE: int := 2

  // ---------- error_control.c ----------

  datatype Camera = NORMAL | DEGRADED | SUSPENDED

  /** Conversion of a uint32_t to int32_t. */
  function Signed(d: nat): int { if d < 0x8000_0000 then d else d - 0x1_0000_0000 }

  /** The difference of two 32-bit counters, subtracted as int32_t. */
  function CmdDiff(received: nat, sentOk: nat): int { Signed(U32(U32(received) - U32(sentOk))) }

  /** Wrapping is harmless exactly while the true difference fits an int32_t. */
  lemma CmdDiffIsExact(received: nat, sentOk: nat)
    ensures CmdDiff(received, sentOk) == received - sentOk
            <==> -0x8000_0000 <= received - sentOk < 0x8000_0000
  {
    DifferenceWraps(received, sentOk);
  }

  lemma DifferenceWraps(a: nat, b: nat)
    ensures U32(U32(a) - U32(b)) == U32(a - b)
  {
    var m := 0x1_0000_0000;
    var k := a / m - b / m;
    assert U32(a) - U32(b) == a - b - m * k;
    Shift(a - b, k);
  }

  lemma Shift(x: int, k: int)
    ensures U32(x - 0x1_0000_0000 * k) == U32(x)
  {
    var m := 0x1_0000_0000;
    var q, r := x / m, x % m;
    assert x - m * k == m * (q - k) + r;
  }

  /** evaluate_camera_state. */
  function Evaluate(camera: Camera, diff: int): Camera {
    match camera
    case NORMAL => if diff >= SUSPEND then SUSPENDED else if diff >= DEGRADE then DEGRADED else NORMAL
    case DEGRADED => if diff >= SUSPEND then SUSPENDED else if diff <= RESTORE then NORMAL else DEGRADED
    case SUSPENDED => if diff <= RESTORE then DEGRADED else SUSPENDED
  }

  function Rank(camera: Camera): nat {
    match camera case NORMAL => 0 case DEGRADED => 1 case SUSPENDED => 2
  }

  // ---------- The state ----------

  datatype ErrorCode =
    | SendCmdQueueError
    | NullBuffer
    | ParseFailed
    | WebsocketDisconnected
    | NoAck
    | UartInvalidCmd
    | UartInvalidParams
    | UartUnknownResponse
    | OtherSource           // whatever the camera, Wi-Fi and the rest report

  /** Where the WebSocket handler is. */
  datatype WsPc =
    | WsIdle
    | WsSending(cmd: DataCmd)   // before xQueueSend(cmd_queue)
    | WsUncounted               // enqueued, before cmds_received++
    | WsEvaluating              // counted, before evaluate_camera_state
    | WsDropping                // cmd_queue stayed full, before the error is posted
    | WsStopping                // disconnected, before the STOP frame is written

  datatype UartPc =
    | UartIdle
    | UartReady                     // a READY frame was parsed
    | Writing(cmd: DataCmd, i: nat) // before attempt i + 1 is written
    | Awaiting(cmd: DataCmd, i: nat)
    | Acked(cmd: DataCmd)           // before cmds_sent_ok++
    | UartEvaluating
    | GaveUp(cmd: DataCmd)          // before NO_ACK is posted

  datatype ErrPc = ErrIdle | ErrCounting | ErrEvaluating

  datatype Outcome = InProgress | Confirmed | Abandoned

  /** A command taken from the queue, how often it was written, and what became of it. */
  datatype Job = Job(cmd: DataCmd, attempts: nat, outcome: Outcome)

  /** What happened so far; the firmware does not keep it. */
  datatype History = History(
    received: nat,        // increments of cmds_received
    sentOk: nat,          // increments of cmds_sent_ok
    enqueued: seq<DataCmd>,
    jobs: seq<Job>,       // commands dequeued by the UART task, in order
    readies: nat,         // READY frames parsed
    drops: nat,           // commands dropped because cmd_queue was full
    dropsCounted: nat,    // of those, counted by the error task
    dropsUnreported: nat, // of those, lost because to_error_queue was full too
    wire: seq<string>)    // frames written to the UART

  datatype State = State(
    cmdQueue: seq<DataCmd>,
    errQueue: seq<ErrorCode>,
    cmdsReceived: nat,    // uint32_t
    cmdsSentOk: nat,      // uint32_t
    camera: Camera,
    ws: WsPc,
    uart: UartPc,
    err: ErrPc,
    log: History)

  function Initial(): State {
    State([], [], 0, 0, NORMAL, WsIdle, UartIdle, ErrIdle, History(0, 0, [], [], 0, 0, 0, 0, []))
  }

  // ---------- The steps ----------

  datatype Action =
    // WebSocket handler
    | WsMessage(cmd: DataCmd)   // a message was parsed and its command taken from the cache
    | WsReport(e: ErrorCode)    // a message that is no command: an error is posted
    | WsEnqueue
    | WsTimeout                 // xQueueSend gave up on a full queue
    | WsPostDrop
    | WsCount
    | WsEvaluate
    | WsDisconnect
    | WsStop
    // UART task
    | UartReceive(data: string) // bytes outside ready_handler
    | UartTake
    | UartWrite
    | UartRead(data: string)    // bytes while waiting for an ACK, possibly none
    | UartCount
    | UartEvaluate
    | UartAbandon
    // error task
    | ErrTake
    | ErrCount
    | ErrEvaluate
    // any other producer of errors
    | CameraReport

  datatype Task = WsTask | UartTask | ErrTask | OtherTask

  function TaskOf(a: Action): Task {
    match a
    case WsMessage(_) => WsTask
    case WsReport(_) => WsTask
    case WsEnqueue => WsTask
    case WsTimeout => WsTask
    case WsPostDrop => WsTask
    case WsCount => WsTask
    case WsEvaluate => WsTask
    case WsDisconnect => WsTask
    case WsStop => WsTask
    case ErrTake => ErrTask
    case ErrCount => ErrTask
    case ErrEvaluate => ErrTask
    case CameraReport => OtherTask
    case _ => UartTask
  }

  predicate Enabled(s: State, a: Action) {
    match a
    case WsMessage(cmd) => s.ws == WsIdle && cmd.id != 0  // take_cmd rejects id 0
    case WsReport(e) => s.ws == WsIdle && (e == NullBuffer || e == ParseFailed)
    case WsEnqueue => s.ws.WsSending? && |s.cmdQueue| < QUEUE_CAPACITY
    case WsTimeout => s.ws.WsSending? && |s.cmdQueue| == QUEUE_CAPACITY
    case WsPostDrop => s.ws == WsDropping
    case WsCount => s.ws == WsUncounted
    case WsEvaluate => s.ws == WsEvaluating
    case WsDisconnect => s.ws == WsIdle
    case WsStop => s.ws == WsStopping
    case UartReceive(data) => s.uart == UartIdle
    case UartTake => s.uart == UartReady
    case UartWrite => s.uart.Writing?
    case UartRead(data) => s.uart.Awaiting?
    case UartCount => s.uart.Acked?
    case UartEvaluate => s.uart == UartEvaluating
    case UartAbandon => s.uart.GaveUp?
    case ErrTake => s.err == ErrIdle && s.errQueue != []
    case ErrCount => s.err == ErrCounting
    case ErrEvaluate => s.err == ErrEvaluating
    case CameraReport => true
  }

  /** xQueueSend(to_error_queue, ..., 0): a full queue drops the error. */
  function Post(q: seq<ErrorCode>, e: ErrorCode): seq<ErrorCode> {
    if |q| < QUEUE_CAPACITY then q + [e] else q
  }

  function EvaluateCamera(s: State): Camera { Evaluate(s.camera, CmdDiff(s.cmdsReceived, s.cmdsSentOk)) }

  /** The last job with `attempts` and `outcome` changed. */
  function SetLast(jobs: seq<Job>, attempts: nat, outcome: Outcome): seq<Job> {
    if jobs == [] then jobs
    else jobs[..|jobs| - 1] + [jobs[|jobs| - 1].(attempts := attempts, outcome := outcome)]
  }

  function LastAttempts(jobs: seq<Job>): nat { if jobs == [] then 0 else jobs[|jobs| - 1].attempts }

  /** One step; a step that is not possible changes nothing. */
  function Apply(s: State, a: Action): State {
    if !Enabled(s, a) then s else
    match a
    case WsMessage(cmd) => s.(ws := WsSending(cmd))
    case WsReport(e) => s.(errQueue := Post(s.errQueue, e))
    case WsEnqueue =>
      s.(cmdQueue := s.cmdQueue + [s.ws.cmd], ws := WsUncounted,
         log := s.log.(enqueued := s.log.enqueued + [s.ws.cmd]))
    case WsTimeout => s.(ws := WsDropping, log := s.log.(drops := s.log.drops + 1))
    case WsPostDrop =>
      s.(errQueue := Post(s.errQueue, SendCmdQueueError), ws := WsIdle,
         log := s.log.(dropsUnreported := s.log.dropsUnreported
                                          + if |s.errQueue| < QUEUE_CAPACITY then 0 else 1))
    case WsCount =>
      s.(cmdsReceived := U32(s.cmdsReceived + 1), ws := WsEvaluating,
         log := s.log.(received := s.log.received + 1))
    case WsEvaluate => s.(camera := EvaluateCamera(s), ws := WsIdle)
    case WsDisconnect => s.(errQueue := Post(s.errQueue, WebsocketDisconnected), ws := WsStopping)
    case WsStop => s.(ws := WsIdle, log := s.log.(wire := s.log.wire + [STOP_FRAME]))
    case UartReceive(data) => Dispatch(s, ParseResponse(data).response)
    case UartTake =>
      if s.cmdQueue == [] then s.(uart := UartIdle)
      else s.(cmdQueue := s.cmdQueue[1..], uart := Writing(s.cmdQueue[0], 0),
              log := s.log.(jobs := s.log.jobs + [Job(s.cmdQueue[0], 0, InProgress)]))
    case UartWrite =>
      s.(uart := Awaiting(s.uart.cmd, s.uart.i),
         log := s.log.(wire := s.log.wire + [FormatCommand(s.uart.cmd)],
                       jobs := SetLast(s.log.jobs, LastAttempts(s.log.jobs) + 1, InProgress)))
    case UartRead(data) =>
      s.(uart := if ParseResponse(data).response == RESP_ACK then Acked(s.uart.cmd)
                 else if s.uart.i < MAX_ATTEMPTS - 1 then Writing(s.uart.cmd, s.uart.i + 1)
                 else GaveUp(s.uart.cmd))
    case UartCount =>
      s.(cmdsSentOk := U32(s.cmdsSentOk + 1), uart := UartEvaluating,
         log := s.log.(sentOk := s.log.sentOk + 1,
                       jobs := SetLast(s.log.jobs, LastAttempts(s.log.jobs), Confirmed)))
    case UartEvaluate => s.(camera := EvaluateCamera(s), uart := UartIdle)
    case UartAbandon =>
      s.(errQueue := Post(s.errQueue, NoAck), uart := UartIdle,
         log := s.log.(jobs := SetLast(s.log.jobs, LastAttempts(s.log.jobs), Abandoned)))
    case ErrTake =>
      s.(errQueue := s.errQueue[1..], err := if s.errQueue[0] == SendCmdQueueError then ErrCounting else ErrIdle)
    case ErrCount =>
      s.(cmdsReceived := U32(s.cmdsReceived + 1), err := ErrEvaluating,
         log := s.log.(received := s.log.received + 1, dropsCounted := s.log.dropsCounted + 1))
    case ErrEvaluate => s.(camera := EvaluateCamera(s), err := ErrIdle)
    case CameraReport => s.(errQueue := Post(s.errQueue, OtherSource))
  }

  /** What error_handler and not_known_response report. */
  function ResponseError(response: int): ErrorCode {
    if response == RESP_ERR_INVALID_COMMAND then UartInvalidCmd
    else if response == RESP_ERR_INVALID_PARAMS then UartInvalidParams
    else UartUnknownResponse
  }

  /** The switch of task_uart. */
  function Dispatch(s: State, response: int): State {
    if response == -1 then s
    else if response == RESP_READY then s.(uart := UartReady, log := s.log.(readies := s.log.readies + 1))
    else s.(errQueue := Post(s.errQueue, ResponseError(response)))
  }

  function Run(s: State, actions: seq<Action>): State {
    if actions == [] then s else Apply(Run(s, actions[..|actions| - 1]), actions[|actions| - 1])
  }

  // ---------- Counting ----------

  function CountJobs(jobs: seq<Job>, o: Outcome): nat {
    if jobs == [] then 0 else CountJobs(jobs[..|jobs| - 1], o) + if jobs[|jobs| - 1].outcome == o then 1 else 0
  }

  function CountDrops(q: seq<ErrorCode>): nat {
    if q == [] then 0 else CountDrops(q[1..]) + if q[0] == SendCmdQueueError then 1 else 0
  }

  function Commands(jobs: seq<Job>): seq<DataCmd> {
    if jobs == [] then [] else Commands(jobs[..|jobs| - 1]) + [jobs[|jobs| - 1].cmd]
  }

  /** The command the UART task has taken and not finished. */
  function InFlight(s: State): nat {
    if s.uart.Writing? || s.uart.Awaiting? || s.uart.Acked? || s.uart.GaveUp? then 1 else 0
  }

  /** Commands that will never be confirmed: given up by the UART task, or dropped and counted. */
  function Lost(s: State): nat { CountJobs(s.log.jobs, Abandoned) + s.log.dropsCounted }

  /** A command that is in the queue, or past it, but not counted yet. */
  function Uncounted(s: State): nat { if s.ws == WsUncounted then 1 else 0 }

  function Diff(s: State): int { s.log.received - s.log.sentOk }

  /** The commands that were received and not confirmed: queued, in flight and lost, less an uncounted one. */
  function Outstanding(s: State): int { |s.cmdQueue| + InFlight(s) + Lost(s) - Uncounted(s) }

  lemma JobAdded(jobs: seq<Job>, j: Job, o: Outcome)
    ensures CountJobs(jobs + [j], o) == CountJobs(jobs, o) + if j.outcome == o then 1 else 0
    ensures Commands(jobs + [j]) == Commands(jobs) + [j.cmd]
  {
    assert (jobs + [j])[..|jobs|] == jobs;
  }

  lemma JobChanged(jobs: seq<Job>, attempts: nat, outcome: Outcome, o: Outcome)
    requires jobs != []
    ensures CountJobs(SetLast(jobs, attempts, outcome), o)
         == CountJobs(jobs[..|jobs| - 1], o) + if outcome == o then 1 else 0
    ensures Commands(SetLast(jobs, attempts, outcome)) == Commands(jobs)
  {
    JobAdded(jobs[..|jobs| - 1], jobs[|jobs| - 1].(attempts := attempts, outcome := outcome), o);
  }

  /** The job in progress counts for no outcome until it has one. */
  lemma InProgressChanged(jobs: seq<Job>, attempts: nat, outcome: Outcome, o: Outcome)
    requires jobs != [] && jobs[|jobs| - 1].outcome == InProgress != o
    ensures CountJobs(SetLast(jobs, attempts, outcome), o) == CountJobs(jobs, o) + if outcome == o then 1 else 0
    ensures Commands(SetLast(jobs, attempts, outcome)) == Commands(jobs)
  {
    JobChanged(jobs, attempts, outcome, o);
  }

  lemma {:induction false} DropAdded(q: seq<ErrorCode>, e: ErrorCode)
    ensures CountDrops(q + [e]) == CountDrops(q) + if e == SendCmdQueueError then 1 else 0
  {
    if q == [] {
      assert q + [e] == [e];
    } else {
      DropAdded(q[1..], e);
      assert (q + [e])[1..] == q[1..] + [e];
    }
  }

  // ---------- Invariants ----------

  ghost predicate Queues(s: State) {
    && |s.cmdQueue| <= QUEUE_CAPACITY && |s.errQueue| <= QUEUE_CAPACITY
    && s.cmdsReceived == U32(s.log.received) && s.cmdsSentOk == U32(s.log.sentOk)
    && (s.ws.WsSending? ==> s.ws.cmd.id != 0)
    && (forall i :: 0 <= i < |s.log.enqueued| ==> s.log.enqueued[i].id != 0)
  }

  /** A finished job was written one to four times; it was abandoned only after four. */
  predicate Finished(j: Job) {
    !j.outcome.InProgress? && 1 <= j.attempts <= 4 && (j.outcome.Abandoned? ==> j.attempts == 4)
  }

  /** The last job matches what the UART task is doing. */
  predicate Current(j: Job, uart: UartPc) {
    && j.outcome.InProgress?
    && match uart
       case Writing(cmd, i) => j.cmd == cmd && j.attempts == i < 4
       case Awaiting(cmd, i) => j.cmd == cmd && j.attempts == i + 1 <= 4
       case Acked(cmd) => j.cmd == cmd && 1 <= j.attempts <= 4
       case GaveUp(cmd) => j.cmd == cmd && j.attempts == 4
       case _ => false
  }

  ghost predicate AllFinished(jobs: seq<Job>) { forall i :: 0 <= i < |jobs| ==> Finished(jobs[i]) }

  ghost predicate JobsOk(s: State) {
    var jobs := s.log.jobs;
    && (if InFlight(s) == 1 then jobs != [] && AllFinished(jobs[..|jobs| - 1]) && Current(jobs[|jobs| - 1], s.uart)
        else AllFinished(jobs))
    && |jobs| + (if s.uart == UartReady then 1 else 0) <= s.log.readies
  }

  /** Each enqueued command is a job or still queued, in order; the counters count confirmations, and
      enqueued and dropped commands. */
  ghost predicate TotalsOk(s: State) {
    && s.log.enqueued == Commands(s.log.jobs) + s.cmdQueue
    && s.log.sentOk == CountJobs(s.log.jobs, Confirmed)
    && s.log.received == |s.log.enqueued| - Uncounted(s) + s.log.dropsCounted
  }

  /** Every dropped command is still being reported, or was counted, or its report was dropped too. */
  ghost predicate DropsOk(s: State) {
    s.log.drops == s.log.dropsCounted + s.log.dropsUnreported + CountDrops(s.errQueue)
                   + (if s.err == ErrCounting then 1 else 0) + (if s.ws == WsDropping then 1 else 0)
  }

  /** The frames on the UART other than STOP. */
  function WithoutStops(wire: seq<string>): seq<string> {
    if wire == [] then []
    else WithoutStops(wire[..|wire| - 1]) + if wire[|wire| - 1] == STOP_FRAME then [] else [wire[|wire| - 1]]
  }

  function Repeat(frame: string, n: nat): seq<string> { if n == 0 then [] else Repeat(frame, n - 1) + [frame] }

  /** Each job's frame as often as it was attempted, job after job. */
  function FramesOf(jobs: seq<Job>): seq<string> {
    if jobs == [] then []
    else FramesOf(jobs[..|jobs| - 1]) + Repeat(FormatCommand(jobs[|jobs| - 1].cmd), jobs[|jobs| - 1].attempts)
  }

  ghost predicate WireOk(s: State) { WithoutStops(s.log.wire) == FramesOf(s.log.jobs) }

  /** Below this many lost commands the 32-bit difference is the true one. */
  const MAX_LOST: nat := 0x7FFF_FFFF - 11

  /** Evaluations that are due: after counting a received command, and after counting a sent one. */
  function DueReceive(s: State): nat {
    (if s.ws == WsEvaluating then 1 else 0) + (if s.err == ErrEvaluating then 1 else 0)
  }

  function DueSent(s: State): nat { if s.uart == UartEvaluating then 1 else 0 }

  predicate InBand(s: State) {
    match s.camera
    case NORMAL => Diff(s) <= 5 + DueReceive(s)
    case DEGRADED => 2 - DueSent(s) <= Diff(s) <= 9 + DueReceive(s)
    case SUSPENDED => 3 - DueSent(s) <= Diff(s)
  }

  ghost predicate Inv(s: State) {
    Queues(s) && JobsOk(s) && TotalsOk(s) && DropsOk(s) && WireOk(s) && (Lost(s) <= MAX_LOST ==> InBand(s))
  }

  // ---------- Every step keeps them ----------

  lemma StepKeepsQueues(s: State, a: Action)
    requires Queues(s)
    ensures Queues(Apply(s, a))
  {
    hide ParseResponse, FormatCommand, SetLast, EvaluateCamera;
  }

  /** Only the UART task touches its own state, the jobs and the confirmations. */
  lemma OnlyUartTouchesJobs(s: State, a: Action)
    requires TaskOf(a) != UartTask
    ensures var t := Apply(s, a);
            t.uart == s.uart && t.log.jobs == s.log.jobs && t.log.readies == s.log.readies
            && t.log.sentOk == s.log.sentOk
  {
  }

  lemma StepKeepsJobs(s: State, a: Action)
    requires JobsOk(s)
    ensures JobsOk(Apply(s, a))
  {
    if TaskOf(a) != UartTask {
      OnlyUartTouchesJobs(s, a);
    } else if Enabled(s, a) {
      UartKeepsJobs(s, a);
    }
  }

  /** The last job goes on, */
  lemma JobGoesOn(jobs: seq<Job>, attempts: nat, uart: UartPc)
    requires jobs != [] && AllFinished(jobs[..|jobs| - 1])
    requires Current(jobs[|jobs| - 1].(attempts := attempts, outcome := InProgress), uart)
    ensures var js := SetLast(jobs, attempts, InProgress);
            |js| == |jobs| && AllFinished(js[..|js| - 1]) && Current(js[|js| - 1], uart)
  {
    hide AllFinished, Current;
    assert SetLast(jobs, attempts, InProgress)[..|jobs| - 1] == jobs[..|jobs| - 1];
  }

  /** or is finished. */
  lemma JobIsFinished(jobs: seq<Job>, attempts: nat, outcome: Outcome)
    requires jobs != [] && AllFinished(jobs[..|jobs| - 1])
    requires Finished(jobs[|jobs| - 1].(attempts := attempts, outcome := outcome))
    ensures |SetLast(jobs, attempts, outcome)| == |jobs| && AllFinished(SetLast(jobs, attempts, outcome))
  {
    hide Finished;
  }

  lemma UartKeepsJobs(s: State, a: Action)
    requires JobsOk(s) && Enabled(s, a) && TaskOf(a) == UartTask
    ensures JobsOk(Apply(s, a))
  {
    hide ParseResponse, FormatCommand, EvaluateCamera, U32, Post, SetLast, AllFinished, Finished;
    var jobs := s.log.jobs;
    var n := LastAttempts(jobs);
    match a
    case UartReceive(_) =>
    case UartTake =>
      if s.cmdQueue != [] { assert (jobs + [Job(s.cmdQueue[0], 0, InProgress)])[..|jobs|] == jobs; }
    case UartWrite => JobGoesOn(jobs, n + 1, Awaiting(s.uart.cmd, s.uart.i));
    case UartRead(_) =>
    case UartCount => AckedIsFinished(jobs[|jobs| - 1], s.uart); JobIsFinished(jobs, n, Confirmed);
    case UartEvaluate =>
    case UartAbandon => AckedIsFinished(jobs[|jobs| - 1], s.uart); JobIsFinished(jobs, n, Abandoned);
  }

  lemma AckedIsFinished(j: Job, uart: UartPc)
    requires Current(j, uart) && (uart.Acked? || uart.GaveUp?)
    ensures Finished(j.(outcome := if uart.Acked? then Confirmed else Abandoned))
  {
  }

  lemma StepKeepsTotals(s: State, a: Action)
    requires JobsOk(s) && TotalsOk(s)
    ensures TotalsOk(Apply(s, a))
  {
    hide Apply, JobsOk, TotalsOk;
    if !Enabled(s, a) {
      DisabledStep(s, a);
    } else if TaskOf(a) == UartTask {
      UartKeepsTotals(s, a);
    } else {
      OthersKeepTotals(s, a);
    }
  }

  lemma DisabledStep(s: State, a: Action)
    requires !Enabled(s, a)
    ensures Apply(s, a) == s
  {
  }

  lemma UartKeepsTotals(s: State, a: Action)
    requires JobsOk(s) && TotalsOk(s) && Enabled(s, a) && TaskOf(a) == UartTask
    ensures TotalsOk(Apply(s, a))
  {
    hide ParseResponse, FormatCommand, AllFinished, Finished, EvaluateCamera, Post, U32, SetLast, Commands, CountJobs;
    var jobs := s.log.jobs;
    match a
    case UartTake =>
      if s.cmdQueue != [] {
        JobAdded(jobs, Job(s.cmdQueue[0], 0, InProgress), Confirmed);
        assert Commands(jobs) + s.cmdQueue == Commands(jobs) + [s.cmdQueue[0]] + s.cmdQueue[1..];
      }
    case UartWrite => InProgressChanged(jobs, LastAttempts(jobs) + 1, InProgress, Confirmed);
    case UartCount => InProgressChanged(jobs, LastAttempts(jobs), Confirmed, Confirmed);
    case UartAbandon => InProgressChanged(jobs, LastAttempts(jobs), Abandoned, Confirmed);
    case _ =>
  }

  lemma OthersKeepTotals(s: State, a: Action)
    requires TotalsOk(s) && Enabled(s, a) && TaskOf(a) != UartTask
    ensures TotalsOk(Apply(s, a))
  {
    hide ParseResponse, FormatCommand, EvaluateCamera, Post, U32, SetLast, Commands, CountJobs;
    if a == WsEnqueue {
      var jobs := s.log.jobs;
      assert Commands(jobs) + (s.cmdQueue + [s.ws.cmd]) == Commands(jobs) + s.cmdQueue + [s.ws.cmd];
    }
  }

  lemma StepKeepsDrops(s: State, a: Action)
    requires DropsOk(s)
    ensures DropsOk(Apply(s, a))
  {
    hide ParseResponse, FormatCommand, SetLast, EvaluateCamera, LastAttempts, U32, Post, Dispatch, CountDrops;
    if Enabled(s, a) {
      match a
      case WsPostDrop => DropPosted(s.errQueue, SendCmdQueueError);
      case ErrTake => DropTaken(s.errQueue);
      case WsReport(e) => DropPosted(s.errQueue, e);
      case WsDisconnect => DropPosted(s.errQueue, WebsocketDisconnected);
      case UartAbandon => DropPosted(s.errQueue, NoAck);
      case CameraReport => DropPosted(s.errQueue, OtherSource);
      case UartReceive(data) => DispatchKeepsDrops(s, ParseResponse(data).response);
      case _ =>
    }
  }

  lemma DropPosted(q: seq<ErrorCode>, e: ErrorCode)
    ensures CountDrops(Post(q, e))
         == CountDrops(q) + if e == SendCmdQueueError && |q| < QUEUE_CAPACITY then 1 else 0
  {
    DropAdded(q, e);
  }

  lemma DropTaken(q: seq<ErrorCode>)
    requires q != []
    ensures CountDrops(q) == CountDrops(q[1..]) + if q[0] == SendCmdQueueError then 1 else 0
  {
  }

  lemma DispatchKeepsDrops(s: State, response: int)
    requires DropsOk(s)
    ensures DropsOk(Dispatch(s, response))
  {
    hide Post, CountDrops;
    DropPosted(s.errQueue, ResponseError(response));
  }

  // ---------- The error queue ----------

  /** The error that a step reports, by the numbers of the responses: 1 is READY, and -1 no response. */
  function ErrorOf(a: Action): Option<ErrorCode> {
    match a
    case WsReport(e) => Some(e)
    case WsPostDrop => Some(SendCmdQueueError)
    case WsDisconnect => Some(WebsocketDisconnected)
    case UartAbandon => Some(NoAck)
    case CameraReport => Some(OtherSource)
    case UartReceive(data) =>
      var code := ParseResponse(data).response;
      if code == -1 || code == 1 then None
      else Some(if code == 3 then UartInvalidCmd else if code == 4 then UartInvalidParams else UartUnknownResponse)
    case _ => None
  }

  /** Every error reaches a queue of less than ten and is lost on a full one; only ErrTake takes one off. */
  lemma ErrorsReachTheQueue(s: State, a: Action)
    requires Enabled(s, a)
    ensures Apply(s, a).errQueue == if ErrorOf(a).Some? && |s.errQueue| < 10 then s.errQueue + [ErrorOf(a).value]
                                    else if a == ErrTake then s.errQueue[1..] else s.errQueue
  {
    hide ParseResponse, FormatCommand, SetLast, EvaluateCamera;
  }

  // ---------- The UART trace ----------

  lemma FrameAdded(wire: seq<string>, frame: string)
    ensures WithoutStops(wire + [frame]) == WithoutStops(wire) + if frame == STOP_FRAME then [] else [frame]
  {
    assert (wire + [frame])[..|wire|] == wire;
  }

  lemma FramesWithLast(jobs: seq<Job>, j: Job)
    ensures FramesOf(jobs + [j]) == FramesOf(jobs) + Repeat(FormatCommand(j.cmd), j.attempts)
  {
    assert (jobs + [j])[..|jobs|] == jobs;
  }

  lemma FramesOfSetLast(jobs: seq<Job>, attempts: nat, outcome: Outcome)
    requires jobs != []
    ensures FramesOf(SetLast(jobs, attempts, outcome))
         == FramesOf(jobs[..|jobs| - 1]) + Repeat(FormatCommand(jobs[|jobs| - 1].cmd), attempts)
  {
    FramesWithLast(jobs[..|jobs| - 1], jobs[|jobs| - 1].(attempts := attempts, outcome := outcome));
  }

  lemma InFlightIdIsNonzero(s: State)
    requires Queues(s) && JobsOk(s) && TotalsOk(s) && InFlight(s) == 1
    ensures s.uart.cmd.id != 0 && s.log.jobs[|s.log.jobs| - 1].cmd == s.uart.cmd
  {
    var k := |Commands(s.log.jobs)| - 1;
    assert s.log.enqueued[k] == s.uart.cmd;
  }

  lemma RetryAddsFrame(jobs: seq<Job>)
    requires jobs != []
    ensures FramesOf(SetLast(jobs, LastAttempts(jobs) + 1, InProgress))
         == FramesOf(jobs) + [FormatCommand(jobs[|jobs| - 1].cmd)]
  {
    hide FormatCommand, SetLast;
    FramesOfSetLast(jobs, LastAttempts(jobs) + 1, InProgress);
  }

  lemma WriteKeepsWire(s: State)
    requires Inv(s) && Enabled(s, UartWrite)
    ensures WireOk(Apply(s, UartWrite))
  {
    hide FormatCommand, InBand, Queues, TotalsOk, DropsOk, Finished, Lost, ParseResponse, Dispatch;
    hide FramesOf, WithoutStops, SetLast, LastAttempts;
    InFlightIdIsNonzero(s);
    RetryAddsFrame(s.log.jobs);
    FrameAdded(s.log.wire, FormatCommand(s.uart.cmd));
    CommandIsNotStop(s.uart.cmd);
  }

  lemma StepKeepsWire(s: State, a: Action)
    requires Inv(s)
    ensures WireOk(Apply(s, a))
  {
    hide FormatCommand, InBand, Finished, Current, ParseResponse;
    var jobs := s.log.jobs;
    if Enabled(s, a) {
      match a
      case UartWrite => WriteKeepsWire(s);
      case UartTake => if s.cmdQueue != [] { FramesWithLast(jobs, Job(s.cmdQueue[0], 0, InProgress)); }
      case UartCount => FramesOfSetLast(jobs, LastAttempts(jobs), Confirmed);
      case UartAbandon => FramesOfSetLast(jobs, LastAttempts(jobs), Abandoned);
      case WsStop => FrameAdded(s.log.wire, STOP_FRAME);
      case _ =>
    }
  }

  // ---------- Conservation ----------

  lemma {:induction false} JobsArePartitioned(jobs: seq<Job>)
    requires AllFinished(jobs)
    ensures |jobs| == CountJobs(jobs, Confirmed) + CountJobs(jobs, Abandoned)
    ensures |Commands(jobs)| == |jobs|
  {
    if jobs != [] { JobsArePartitioned(jobs[..|jobs| - 1]); }
  }

  /** Conservation: the difference of the two counts is the commands still queued, the one in flight and
      the ones lost, less the one that is enqueued but not counted yet. */
  lemma Conservation(s: State)
    requires JobsOk(s) && TotalsOk(s)
    ensures Diff(s) == Outstanding(s)
  {
    var jobs := s.log.jobs;
    if InFlight(s) == 1 {
      JobsArePartitioned(jobs[..|jobs| - 1]);
    } else {
      JobsArePartitioned(jobs);
    }
  }

  // ---------- The camera state ----------

  lemma LostOnlyGrows(s: State, a: Action)
    requires JobsOk(s)
    ensures Lost(s) <= Lost(Apply(s, a))
  {
    hide ParseResponse, FormatCommand, AllFinished, Finished, CountJobs, SetLast, EvaluateCamera, Post, U32;
    var jobs := s.log.jobs;
    if Enabled(s, a) {
      match a
      case UartTake => if s.cmdQueue != [] { JobAdded(jobs, Job(s.cmdQueue[0], 0, InProgress), Abandoned); }
      case UartWrite => InProgressChanged(jobs, LastAttempts(jobs) + 1, InProgress, Abandoned);
      case UartCount => InProgressChanged(jobs, LastAttempts(jobs), Confirmed, Abandoned);
      case UartAbandon => InProgressChanged(jobs, LastAttempts(jobs), Abandoned, Abandoned);
      case _ =>
    }
  }

  /** Up to MAX_LOST lost commands the firmware compares the true difference with its thresholds. */
  lemma DiffIsExact(s: State)
    requires Queues(s) && JobsOk(s) && TotalsOk(s) && Lost(s) <= MAX_LOST
    ensures CmdDiff(s.cmdsReceived, s.cmdsSentOk) == Diff(s)
    ensures -1 <= Diff(s)
  {
    hide CmdDiff, JobsOk, TotalsOk, Lost;
    Conservation(s);
    DiffInRange(s.log.received, s.log.sentOk);
  }

  lemma DiffInRange(received: nat, sentOk: nat)
    requires -1 <= received - sentOk <= 0x7FFF_FFFF
    ensures CmdDiff(U32(received), U32(sentOk)) == received - sentOk
  {
    DifferenceWraps(received, sentOk);
    assert U32(U32(received)) == U32(received) && U32(U32(sentOk)) == U32(sentOk);
  }

  lemma StepKeepsBands(s: State, a: Action)
    requires Inv(s) && Lost(Apply(s, a)) <= MAX_LOST
    ensures InBand(Apply(s, a))
  {
    hide ParseResponse, FormatCommand, JobsOk, TotalsOk, DropsOk, WireOk, CmdDiff, Lost, Queues;
    LostOnlyGrows(s, a);
    DiffIsExact(s);
  }

  lemma StepKeepsInv(s: State, a: Action)
    requires Inv(s)
    ensures Inv(Apply(s, a))
  {
    hide Apply, Queues, JobsOk, TotalsOk, DropsOk, WireOk, InBand, Lost;
    StepKeepsQueues(s, a);
    StepKeepsJobs(s, a);
    StepKeepsTotals(s, a);
    StepKeepsDrops(s, a);
    StepKeepsWire(s, a);
    if Lost(Apply(s, a)) <= MAX_LOST { StepKeepsBands(s, a); }
  }

  // ---------- Theorems over every run ----------

  /** Every state that any interleaving of the tasks can reach satisfies the invariants. */
  lemma {:induction false} RunKeepsInv(s: State, actions: seq<Action>)
    requires Inv(s)
    ensures Inv(Run(s, actions)) && Lost(s) <= Lost(Run(s, actions))
  {
    hide Apply, Inv, Lost;
    if actions != [] {
      var before := Run(s, actions[..|actions| - 1]);
      RunKeepsInv(s, actions[..|actions| - 1]);
      StepKeepsInv(before, actions[|actions| - 1]);
      InvJobs(before);
      LostOnlyGrows(before, actions[|actions| - 1]);
    }
  }

  lemma InvJobs(s: State)
    requires Inv(s)
    ensures JobsOk(s) && TotalsOk(s) && Queues(s) && DropsOk(s) && WireOk(s)
  {
  }

  lemma InitialInv()
    ensures Inv(Initial())
  {
  }

  /** Conservation over all runs, and what it bounds. */
  lemma ConservationOfRuns(actions: seq<Action>)
    ensures var s := Run(Initial(), actions);
            && s.log.received - s.log.sentOk == Outstanding(s)
            && s.log.sentOk <= s.log.received + 1
            && |s.cmdQueue| <= 10 && |s.errQueue| <= 10
            && s.log.drops == s.log.dropsCounted + s.log.dropsUnreported + CountDrops(s.errQueue)
                              + (if s.err == ErrCounting then 1 else 0) + (if s.ws == WsDropping then 1 else 0)
  {
    hide Lost, CountDrops;
    InitialInv();
    RunKeepsInv(Initial(), actions);
    Conservation(Run(Initial(), actions));
  }

  /** The hysteresis bands survive every interleaving, with slack only for evaluations that are due. */
  lemma BandsOfRuns(actions: seq<Action>)
    requires Lost(Run(Initial(), actions)) <= MAX_LOST
    ensures InBand(Run(Initial(), actions))
  {
    InitialInv();
    RunKeepsInv(Initial(), actions);
  }

  predicate IsEvaluation(s: State, a: Action) { Enabled(s, a) && (a.WsEvaluate? || a.UartEvaluate? || a.ErrEvaluate?) }

  lemma CameraStep(s: State, a: Action)
    ensures Apply(s, a).camera == if IsEvaluation(s, a) then EvaluateCamera(s) else s.camera
  {
    hide ParseResponse, FormatCommand, EvaluateCamera;
  }

  /** When the camera is suspended straight from NORMAL, in every run: an evaluation finds ten or more
      outstanding, modulo 2^32 and below 2^31. */
  lemma DirectSuspension(actions: seq<Action>, a: Action)
    ensures var s := Run(Initial(), actions); var d := U32(Outstanding(s));
            s.camera == NORMAL && Apply(s, a).camera == SUSPENDED
            <==> IsEvaluation(s, a) && s.camera == NORMAL && 10 <= d < 0x8000_0000
  {
    hide Apply, EvaluateCamera, Evaluate, Signed, Outstanding, IsEvaluation;
    var s := Run(Initial(), actions);
    InitialInv();
    RunKeepsInv(Initial(), actions);
    InvJobs(s);
    CameraStep(s, a);
    EvaluatesOutstanding(s);
    SignedJump(U32(Outstanding(s)));
  }

  lemma SignedJump(d: nat)
    requires d < 0x1_0000_0000
    ensures Evaluate(NORMAL, Signed(d)) == SUSPENDED <==> 10 <= d < 0x8000_0000
  {
  }

  /** It is not while at most MAX_LOST commands have been lost. */
  lemma NoDirectSuspension(actions: seq<Action>, a: Action)
    requires Lost(Run(Initial(), actions)) <= MAX_LOST
    ensures var s := Run(Initial(), actions); s.camera == NORMAL ==> Apply(s, a).camera != SUSPENDED
  {
    hide Apply, CmdDiff, Inv, IsEvaluation, Lost, Queues, JobsOk, TotalsOk;
    var s := Run(Initial(), actions);
    BandsOfRuns(actions);
    InitialInv();
    RunKeepsInv(Initial(), actions);
    InvJobs(s);
    DiffIsExact(s);
    CameraStep(s, a);
  }

  lemma EvaluatesOutstanding(s: State)
    requires Queues(s) && JobsOk(s) && TotalsOk(s)
    ensures EvaluateCamera(s) == Evaluate(s.camera, Signed(U32(Outstanding(s))))
  {
    hide JobsOk, TotalsOk, Outstanding, Evaluate, Signed;
    Conservation(s);
    DifferenceWraps(s.log.received, s.log.sentOk);
    assert U32(s.cmdsReceived) == s.cmdsReceived && U32(s.cmdsSentOk) == s.cmdsSentOk;
  }

  lemma SignedThresholds(camera: Camera, d: nat)
    requires d < 0x1_0000_0000
    ensures Rank(Evaluate(camera, Signed(d))) < Rank(camera)
            <==> camera != NORMAL && (d <= 2 || d >= 0x8000_0000)
    ensures Rank(Evaluate(camera, Signed(d))) > Rank(camera)
            <==> camera != SUSPENDED && d < 0x8000_0000 && d >= if camera == NORMAL then 6 else 10
  {
  }

  /** What moves the camera state, in every run and for any number of lost commands: with d the outstanding
      commands as a uint32_t, an evaluation improves it exactly at d <= 2 or d >= 2^31, where the difference
      reads as negative, and worsens it exactly at d >= 6 (NORMAL) or d >= 10 (DEGRADED) below 2^31. */
  lemma CameraMoves(actions: seq<Action>, a: Action)
    ensures var s := Run(Initial(), actions); var d := U32(Outstanding(s));
            && (Rank(Apply(s, a).camera) < Rank(s.camera)
                <==> IsEvaluation(s, a) && s.camera != NORMAL && (d <= 2 || d >= 0x8000_0000))
            && (Rank(Apply(s, a).camera) > Rank(s.camera)
                <==> IsEvaluation(s, a) && s.camera != SUSPENDED && d < 0x8000_0000
                     && d >= if s.camera == NORMAL then 6 else 10)
  {
    hide Apply, EvaluateCamera, Evaluate, Signed, Outstanding, IsEvaluation;
    var s := Run(Initial(), actions);
    InitialInv();
    RunKeepsInv(Initial(), actions);
    InvJobs(s);
    CameraStep(s, a);
    EvaluatesOutstanding(s);
    SignedThresholds(s.camera, U32(Outstanding(s)));
  }

  lemma SignedTable(camera: Camera, d: nat)
    requires d < 0x1_0000_0000
    ensures Evaluate(camera, Signed(d))
            == if d >= 0x8000_0000 || d <= 2 then (if camera == SUSPENDED then DEGRADED else NORMAL)
               else if d >= 10 then SUSPENDED
               else if camera == NORMAL then (if d >= 6 then DEGRADED else NORMAL) else camera
  {
  }

  /** The next camera state of every run, state by state. */
  lemma CameraTable(actions: seq<Action>, a: Action)
    ensures var s := Run(Initial(), actions); var d := U32(Outstanding(s));
            Apply(s, a).camera
            == if !IsEvaluation(s, a) then s.camera
               else if d >= 0x8000_0000 || d <= 2 then (if s.camera == SUSPENDED then DEGRADED else NORMAL)
               else if d >= 10 then SUSPENDED
               else if s.camera == NORMAL then (if d >= 6 then DEGRADED else NORMAL) else s.camera
  {
    hide Apply, EvaluateCamera, Evaluate, Signed, Outstanding, IsEvaluation;
    var s := Run(Initial(), actions);
    InitialInv();
    RunKeepsInv(Initial(), actions);
    InvJobs(s);
    CameraStep(s, a);
    EvaluatesOutstanding(s);
    SignedTable(s.camera, U32(Outstanding(s)));
  }

  /** Restoration is earned: while at most MAX_LOST commands have been lost, a step improves the camera state
      exactly when it evaluates a degraded camera with at most two commands outstanding. */
  lemma RestorationIsEarned(actions: seq<Action>, a: Action)
    requires Lost(Run(Initial(), actions)) <= MAX_LOST
    ensures var s := Run(Initial(), actions);
            Rank(Apply(s, a).camera) < Rank(s.camera)
            <==> IsEvaluation(s, a) && s.camera != NORMAL && Outstanding(s) <= 2
  {
    hide Apply, Evaluate, IsEvaluation, Outstanding, CmdDiff;
    var s := Run(Initial(), actions);
    InitialInv();
    RunKeepsInv(Initial(), actions);
    InvJobs(s);
    DiffIsExact(s);
    Conservation(s);
    CameraStep(s, a);
    Thresholds(s.camera, Diff(s));
  }

  lemma Thresholds(camera: Camera, diff: int)
    ensures Rank(Evaluate(camera, diff)) < Rank(camera) <==> camera != NORMAL && diff <= 2
  {
  }

  lemma {:induction false} RunConcat(s: State, a: seq<Action>, b: seq<Action>)
    ensures Run(s, a + b) == Run(Run(s, a), b)
  {
    hide Apply;
    if b == [] {
      assert a + b == a;
    } else {
      RunConcat(s, a, b[..|b| - 1]);
      assert (a + b)[..|a + b| - 1] == a + b[..|b| - 1];
    }
  }

  /** Once four commands have been lost, the camera state never improves again. */
  lemma {:induction false} NeverRestoredAfterFourLost(before: seq<Action>, after: seq<Action>)
    requires 4 <= Lost(Run(Initial(), before)) && Lost(Run(Initial(), before + after)) <= MAX_LOST
    ensures Rank(Run(Initial(), before).camera) <= Rank(Run(Initial(), before + after).camera)
  {
    hide Apply, Lost, Rank, InFlight, Inv, IsEvaluation;
    if after == [] {
      assert before + after == before;
    } else {
      var most, a := after[..|after| - 1], after[|after| - 1];
      var s := Run(Initial(), before + most);
      assert (before + after)[..|before + after| - 1] == before + most;
      InitialInv();
      RunKeepsInv(Initial(), before);
      RunKeepsInv(Initial(), before + most);
      RunConcat(Initial(), before, most);
      RunKeepsInv(Run(Initial(), before), most);
      InvJobs(s);
      LostOnlyGrows(s, a);
      NeverRestoredAfterFourLost(before, most);
      RestorationIsEarned(before + most, a);
    }
  }

  /** The shape of the UART trace in every run. Without the STOP frames it is the frames of the jobs; the
      jobs are a prefix of the enqueued commands, in order, the rest being still queued; every job but one in
      flight was written one to four times and ended in one way, abandoned only after four; confirmed jobs
      and cmds_sent_ok agree; and no more jobs were started than READY frames parsed. */
  lemma UartTrace(actions: seq<Action>)
    ensures var s := Run(Initial(), actions); var jobs := s.log.jobs;
            && WithoutStops(s.log.wire) == FramesOf(jobs)
            && s.log.enqueued == Commands(jobs) + s.cmdQueue
            && (if InFlight(s) == 1
                then jobs != [] && AllFinished(jobs[..|jobs| - 1]) && Current(jobs[|jobs| - 1], s.uart)
                else AllFinished(jobs))
            && s.log.sentOk == CountJobs(jobs, Confirmed)
            && |jobs| <= s.log.readies
  {
    InitialInv();
    RunKeepsInv(Initial(), actions);
    InvJobs(Run(Initial(), actions));
  }

  /** Its parts, by position: the commands of the jobs, */
  lemma {:induction false} CommandsAt(jobs: seq<Job>)
    ensures |Commands(jobs)| == |jobs| && forall i :: 0 <= i < |jobs| ==> Commands(jobs)[i] == jobs[i].cmd
  {
    if jobs != [] { CommandsAt(jobs[..|jobs| - 1]); }
  }

  lemma {:induction false} RepeatIs(frame: string, n: nat)
    ensures |Repeat(frame, n)| == n && forall i :: 0 <= i < n ==> Repeat(frame, n)[i] == frame
  {
    if n > 0 { RepeatIs(frame, n - 1); }
  }

  /** the frames of job `k`, which come after those of the jobs before it, as many as it has attempts, */
  lemma {:induction false} FramesAt(jobs: seq<Job>, k: nat, t: nat)
    requires k < |jobs|
    ensures |FramesOf(jobs[..k])| + jobs[k].attempts == |FramesOf(jobs[..k + 1])| <= |FramesOf(jobs)|
    ensures t < jobs[k].attempts ==> FramesOf(jobs)[|FramesOf(jobs[..k])| + t] == FormatCommand(jobs[k].cmd)
  {
    hide FormatCommand;
    var n := |jobs| - 1;
    RepeatIs(FormatCommand(jobs[n].cmd), jobs[n].attempts);
    assert jobs[..|jobs|] == jobs;
    if k < n {
      FramesAt(jobs[..n], k, t);
      assert jobs[..n][..k] == jobs[..k] && jobs[..n][..k + 1] == jobs[..k + 1];
    }
  }

  /** and the frames on the wire, with every STOP taken out. */
  lemma {:induction false} StopsTakenOut(wire: seq<string>)
    ensures multiset(WithoutStops(wire)) == multiset(wire)[STOP_FRAME := 0]
  {
    if wire != [] {
      var n := |wire| - 1;
      StopsTakenOut(wire[..n]);
      assert wire == wire[..n] + [wire[n]];
    }
  }

  function OfOutcome(jobs: seq<Job>, o: Outcome): set<nat> { set i: nat | i < |jobs| && jobs[i].outcome == o }

  /** The counts are those of positions and of copies in the queue. */
  lemma {:induction false} CountJobsIs(jobs: seq<Job>, o: Outcome)
    ensures CountJobs(jobs, o) == |OfOutcome(jobs, o)|
  {
    if jobs == [] {
      assert OfOutcome(jobs, o) == {};
    } else {
      hide OfOutcome;
      CountJobsIs(jobs[..|jobs| - 1], o);
      OfOutcomeGrows(jobs, o);
    }
  }

  lemma OfOutcomeGrows(jobs: seq<Job>, o: Outcome)
    requires jobs != []
    ensures var n := |jobs| - 1;
            OfOutcome(jobs, o) == OfOutcome(jobs[..n], o) + (if jobs[n].outcome == o then {n} else {})
            && n !in OfOutcome(jobs[..n], o)
  {
  }

  lemma {:induction false} CountDropsIs(q: seq<ErrorCode>)
    ensures CountDrops(q) == multiset(q)[SendCmdQueueError]
  {
    if q != [] {
      CountDropsIs(q[1..]);
      assert q == [q[0]] + q[1..];
    }
  }

  // ---------- Natural-number counters ----------

  /** The same step with counters that never wrap. */
  function ApplyExact(s: State, a: Action): State {
    Apply(s, a).(camera := if IsEvaluation(s, a) then Evaluate(s.camera, Diff(s)) else s.camera)
  }

  function RunExact(s: State, actions: seq<Action>): State {
    if actions == [] then s else ApplyExact(RunExact(s, actions[..|actions| - 1]), actions[|actions| - 1])
  }

  /** The true difference fits an int32_t wherever the run evaluates it. */
  ghost predicate Fits(s: State, actions: seq<Action>) {
    actions == []
    || (var most, a := actions[..|actions| - 1], actions[|actions| - 1];
        Fits(s, most) && (IsEvaluation(Run(s, most), a) ==> Diff(Run(s, most)) < 0x8000_0000))
  }

  /** Refinement: until then, a run of the firmware is the same run with counters that never wrap. */
  lemma {:induction false} WrappingRefinesNaturals(actions: seq<Action>)
    requires Fits(Initial(), actions)
    ensures Run(Initial(), actions) == RunExact(Initial(), actions)
  {
    hide Apply, Evaluate, IsEvaluation, Inv, CmdDiff;
    if actions != [] {
      var most, a := actions[..|actions| - 1], actions[|actions| - 1];
      var s := Run(Initial(), most);
      WrappingRefinesNaturals(most);
      InitialInv();
      RunKeepsInv(Initial(), most);
      InvJobs(s);
      CameraStep(s, a);
      if IsEvaluation(s, a) { FittingDiff(s); }
    }
  }

  lemma FittingDiff(s: State)
    requires Queues(s) && JobsOk(s) && TotalsOk(s) && Diff(s) < 0x8000_0000
    ensures CmdDiff(s.cmdsReceived, s.cmdsSentOk) == Diff(s)
  {
    hide CmdDiff, JobsOk, TotalsOk, Lost;
    Conservation(s);
    DiffInRange(s.log.received, s.log.sentOk);
  }

  /** It fits as long as at most MAX_LOST commands have been lost. */
  lemma {:induction false} FewLostFits(actions: seq<Action>)
    requires Lost(Run(Initial(), actions)) <= MAX_LOST
    ensures Fits(Initial(), actions)
  {
    hide Apply, IsEvaluation, Inv, Lost;
    if actions != [] {
      var most, a := actions[..|actions| - 1], actions[|actions| - 1];
      InitialInv();
      RunKeepsInv(Initial(), most);
      InvJobs(Run(Initial(), most));
      LostOnlyGrows(Run(Initial(), most), a);
      FewLostFits(most);
      DiffIsBounded(Run(Initial(), most));
    }
  }

  lemma DiffIsBounded(s: State)
    requires Queues(s) && JobsOk(s) && TotalsOk(s)
    ensures -1 <= Diff(s) <= Lost(s) + QUEUE_CAPACITY + 1
  {
    hide JobsOk, TotalsOk, Lost;
    Conservation(s);
  }
}
