/** The code of the three pipeline tasks, with a preemption point before every action that is shared.

    Rover holds the shared queues and variables. Its invariant says that they are always the state that
    some run of the Pipeline steps leads to, so what Pipeline proves of runs holds of them. */
module RoverTasks {
  import opened Numerals
  import opened UartCodec
  import opened CommandCache
  import opened Pipeline

  /** What the retry loop does with the bytes read after each attempt: how many attempts, and the end. */
  function Attempts(replies: seq<string>): (n: nat)
    ensures n <= |replies|
  {
    if replies == [] then 0
    else if ParseResponse(replies[0]).response == RESP_ACK then 1
    else 1 + Attempts(replies[1..])
  }

  predicate HasAck(replies: seq<string>) {
    replies != [] && (ParseResponse(replies[0]).response == RESP_ACK || HasAck(replies[1..]))
  }

  /** The first `n` passes of the retry loop. */
  function Tries(replies: seq<string>, n: nat): seq<Action>
    requires n <= |replies|
  {
    if n == 0 then [] else Tries(replies, n - 1) + [UartWrite, UartRead(replies[n - 1])]
  }

  /** The steps of ready_handler on a command it has taken. */
  function HandlerSteps(replies: seq<string>): seq<Action> {
    Tries(replies, Attempts(replies)) + if HasAck(replies) then [UartCount, UartEvaluate] else [UartAbandon]
  }

  function JobFor(cmd: DataCmd, replies: seq<string>): Job {
    Job(cmd, Attempts(replies), if HasAck(replies) then Confirmed else Abandoned)
  }

  /** Without an ACK among the first `i` replies, `i` attempts go by; the next one that is an ACK ends it. */
  lemma {:induction false} AttemptsUntil(replies: seq<string>, i: nat)
    requires i <= |replies|
    requires forall k :: 0 <= k < i ==> ParseResponse(replies[k]).response != RESP_ACK
    ensures i == |replies| ==> Attempts(replies) == i && !HasAck(replies)
    ensures i < |replies| && ParseResponse(replies[i]).response == RESP_ACK
            ==> Attempts(replies) == i + 1 && HasAck(replies)
  {
    hide ParseResponse;
    if i > 0 {
      assert forall k :: 0 <= k < i - 1 ==> replies[1..][k] == replies[k + 1];
      AttemptsUntil(replies[1..], i - 1);
    }
  }

  /** Every step of the run was possible when it was taken. */
  ghost predicate Legal(run: seq<Action>) {
    run == []
    || (Legal(run[..|run| - 1]) && Enabled(Run(Initial(), run[..|run| - 1]), run[|run| - 1]))
  }

  /** The steps of one task, in order. */
  function StepsOf(run: seq<Action>, me: Task): seq<Action> {
    if run == [] then []
    else StepsOf(run[..|run| - 1], me) + if TaskOf(run[|run| - 1]) == me then [run[|run| - 1]] else []
  }

  /** In positions: there is an ACK exactly if some reply is one, and then the first one ends the attempts;
      otherwise there are as many as replies. */
  lemma {:induction false} AttemptsMean(replies: seq<string>)
    ensures HasAck(replies) <==> exists i :: 0 <= i < |replies| && ParseResponse(replies[i]).response == 0
    ensures HasAck(replies) ==> 1 <= Attempts(replies)
                                && ParseResponse(replies[Attempts(replies) - 1]).response == 0
    ensures forall i :: 0 <= i < Attempts(replies) - 1 ==> ParseResponse(replies[i]).response != 0
    ensures !HasAck(replies) ==> Attempts(replies) == |replies|
  {
    hide ParseResponse;
    if replies != [] {
      AttemptsMean(replies[1..]);
      assert forall i :: 1 <= i < |replies| ==> replies[i] == replies[1..][i - 1];
    }
  }

  lemma StepAdded(run: seq<Action>, a: Action, me: Task)
    ensures Run(Initial(), run + [a]) == Apply(Run(Initial(), run), a)
    ensures Legal(run + [a]) <==> Legal(run) && Enabled(Run(Initial(), run), a)
    ensures StepsOf(run + [a], me) == StepsOf(run, me) + if TaskOf(a) == me then [a] else []
  {
    hide Apply, Enabled, TaskOf;
    assert (run + [a])[..|run|] == run;
  }

  /** So a command was dropped only when the queue was full. */
  lemma {:induction false} DropNeedsFullQueue(run: seq<Action>, k: nat)
    requires Legal(run) && k < |run| && run[k] == WsTimeout
    ensures |Run(Initial(), run[..k]).cmdQueue| == 10
  {
    if k < |run| - 1 {
      DropNeedsFullQueue(run[..|run| - 1], k);
      assert run[..|run| - 1][..k] == run[..k];
    }
  }

  /** uart_read_bytes into a local buffer, then parse_data. */
  method ParseRead(bytes: string) returns (parsed: DataParse)
    requires |bytes| <= RESPONSE_LEN
    ensures parsed.response == ParseResponse(bytes).response
  {
    var data := new char[RESPONSE_LEN + 1](i => if 0 <= i < |bytes| then bytes[i] else '\0');
    assert data[..|bytes|] == bytes;
    parsed := ParseData(data, |bytes|);
  }

  class Rover {
    var cmdQueue: seq<DataCmd>           // cmd_queue
    var toErrorQueue: seq<ErrorCode>     // to_error_queue
    var cmdsReceived: nat
    var cmdsSentOk: nat
    var cameraState: Camera
    // Where each task is, and what happened so far: not variables of the firmware. Interfere runs the other
    // tasks from them, so they are not ghost.
    var ws: WsPc
    var uart: UartPc
    var err: ErrPc
    var log: History
    ghost var run: seq<Action>

    function View(): State
      reads this
    {
      State(cmdQueue, toErrorQueue, cmdsReceived, cmdsSentOk, cameraState, ws, uart, err, log)
    }

    ghost predicate Valid()
      reads this
    {
      View() == Run(Initial(), run) && Legal(run)
    }

    constructor ()
      ensures Valid() && run == []
      ensures ws == WsIdle && uart == UartIdle && err == ErrIdle
    {
      cmdQueue, toErrorQueue, cmdsReceived, cmdsSentOk, cameraState := [], [], 0, 0, NORMAL;
      ws, uart, err := WsIdle, UartIdle, ErrIdle;
      log := History(0, 0, [], [], 0, 0, 0, 0, []);
      run := [];
    }

    /** The statements since `before` were the step `a`. */
    ghost method Did(before: State, a: Action)
      requires before == Run(Initial(), run) && Legal(run) && Enabled(before, a) && View() == Apply(before, a)
      modifies this`run
      ensures Valid() && run == old(run) + [a]
      ensures StepsOf(run, TaskOf(a)) == StepsOf(old(run), TaskOf(a)) + [a]
    {
      hide Apply, Enabled, TaskOf;
      StepAdded(run, a, TaskOf(a));
      run := run + [a];
    }

    method Load(s: State)
      modifies this
      ensures View() == s && run == old(run)
    {
      cmdQueue, toErrorQueue, cmdsReceived, cmdsSentOk := s.cmdQueue, s.errQueue, s.cmdsReceived, s.cmdsSentOk;
      cameraState, ws, uart, err, log := s.camera, s.ws, s.uart, s.err, s.log;
    }

    /** What steps of other tasks than `me` leave alone, `s` being the state before. */
    ghost predicate Kept(me: Task, s: State)
      reads this
    {
      match me
      case UartTask => uart == s.uart && log.jobs == s.log.jobs && log.readies == s.log.readies
                       && log.sentOk == s.log.sentOk && s.cmdQueue <= cmdQueue
      case WsTask => ws == s.ws && log.enqueued == s.log.enqueued && log.drops == s.log.drops
      case ErrTask => err == s.err && log.dropsCounted == s.log.dropsCounted && s.errQueue <= toErrorQueue
      case OtherTask => true
    }

    /** The other tasks, and whoever posts errors, take any number of steps. */
    method Interfere(me: Task)
      requires Valid()
      modifies this
      ensures Valid() && old(run) <= run && StepsOf(run, me) == StepsOf(old(run), me)
      ensures Kept(me, old(View()))
    {
      hide Apply, Enabled, Run, Legal, StepsOf, TaskOf;
      var n: nat := *;
      while n > 0
        invariant Valid() && old(run) <= run && StepsOf(run, me) == StepsOf(old(run), me)
        invariant Kept(me, old(View()))
      {
        var a: Action := *;
        if TaskOf(a) != me && Enabled(View(), a) {
          var s := View();
          StepAdded(run, a, me);
          Load(Apply(s, a));
          Did(s, a);
          OtherTasksStep(s, a, me);
        }
        n := n - 1;
      }
    }

    // ---------- error_control.c ----------

    /** evaluate_camera_state. */
    method EvaluateCameraState()
      modifies this`cameraState
      ensures cameraState == Evaluate(old(cameraState), CmdDiff(cmdsReceived, cmdsSentOk))
    {
      var cmdDiff := CmdDiff(cmdsReceived, cmdsSentOk);
      match cameraState {
        case NORMAL =>
          if cmdDiff >= SUSPEND {
            cameraState := SUSPENDED;
          } else if cmdDiff >= DEGRADE {
            cameraState := DEGRADED;
          }
        case DEGRADED =>
          if cmdDiff >= SUSPEND {
            cameraState := SUSPENDED;
          } else if cmdDiff <= RESTORE {
            cameraState := NORMAL;
          }
        case SUSPENDED =>
          if cmdDiff <= RESTORE {
            cameraState := DEGRADED;
          }
      }
    }

    /** The call of evaluate_camera_state that is the step `a` of its task. */
    method EvaluateAs(a: Action)
      requires Valid() && IsEvaluation(View(), a)
      modifies this
      ensures Valid() && run == old(run) + [a] && StepsOf(run, TaskOf(a)) == StepsOf(old(run), TaskOf(a)) + [a]
      ensures ws == if a.WsEvaluate? then WsIdle else old(ws)
      ensures uart == if a.UartEvaluate? then UartIdle else old(uart)
      ensures err == if a.ErrEvaluate? then ErrIdle else old(err)
      ensures log == old(log) && cmdQueue == old(cmdQueue) && toErrorQueue == old(toErrorQueue)
    {
      hide ParseResponse, FormatCommand, Run, CmdDiff, Evaluate, U32, StepsOf, Legal, SetLast, LastAttempts, Post;
      ghost var s := View();
      EvaluateCameraState();
      if a.WsEvaluate? {
        ws := WsIdle;
      } else if a.UartEvaluate? {
        uart := UartIdle;
      } else {
        err := ErrIdle;
      }
      Did(s, a);
    }

    /** error_control_cmd_received, called by the WebSocket handler. */
    method CmdReceived()
      requires Valid() && ws == WsUncounted
      modifies this
      ensures Valid() && ws == WsIdle && old(run) <= run
      ensures StepsOf(run, WsTask) == StepsOf(old(run), WsTask) + [WsCount, WsEvaluate]
      ensures log.enqueued == old(log.enqueued) && log.drops == old(log.drops)
    {
      hide ParseResponse, FormatCommand, Run, CmdDiff, Evaluate, U32, StepsOf, Legal, SetLast, LastAttempts, Post;
      hide Apply, Enabled, TaskOf;
      CountReceived();
      Interfere(WsTask);
      EvaluationsOfTasks(View());
      EvaluateAs(WsEvaluate);
    }

    /** The increment in it. */
    method CountReceived()
      requires Valid() && ws == WsUncounted
      modifies this
      ensures Valid() && ws == WsEvaluating && run == old(run) + [WsCount]
      ensures StepsOf(run, WsTask) == StepsOf(old(run), WsTask) + [WsCount]
      ensures log.enqueued == old(log.enqueued) && log.drops == old(log.drops)
    {
      hide ParseResponse, FormatCommand, Run, CmdDiff, Evaluate, U32, StepsOf, Legal, SetLast, LastAttempts, Post;
      ghost var s := View();
      cmdsReceived := U32(cmdsReceived + 1);
      ws, log := WsEvaluating, log.(received := log.received + 1);
      Did(s, WsCount);
    }

    /** error_control_cmd_sent_ok, called by the UART task. */
    method CmdSentOk()
      requires Valid() && uart.Acked?
      modifies this
      ensures Valid() && uart == UartIdle && old(run) <= run
      ensures StepsOf(run, UartTask) == StepsOf(old(run), UartTask) + [UartCount, UartEvaluate]
      ensures log.jobs == SetLast(old(log.jobs), LastAttempts(old(log.jobs)), Confirmed)
      ensures log.sentOk == old(log.sentOk) + 1 && log.readies == old(log.readies)
    {
      hide ParseResponse, FormatCommand, Run, CmdDiff, Evaluate, U32, StepsOf, Legal, SetLast, LastAttempts, Post;
      hide Apply, Enabled, TaskOf;
      CountSent();
      Interfere(UartTask);
      EvaluationsOfTasks(View());
      EvaluateAs(UartEvaluate);
    }

    /** The increment in it. */
    method CountSent()
      requires Valid() && uart.Acked?
      modifies this
      ensures Valid() && uart == UartEvaluating && run == old(run) + [UartCount]
      ensures StepsOf(run, UartTask) == StepsOf(old(run), UartTask) + [UartCount]
      ensures log.jobs == SetLast(old(log.jobs), LastAttempts(old(log.jobs)), Confirmed)
      ensures log.sentOk == old(log.sentOk) + 1 && log.readies == old(log.readies)
    {
      hide ParseResponse, FormatCommand, Run, CmdDiff, Evaluate, U32, StepsOf, Legal, SetLast, LastAttempts, Post;
      ghost var s := View();
      cmdsSentOk := U32(cmdsSentOk + 1);
      uart := UartEvaluating;
      log := log.(sentOk := log.sentOk + 1, jobs := SetLast(log.jobs, LastAttempts(log.jobs), Confirmed));
      Did(s, UartCount);
    }

    /** One turn of error_control_task; with an empty queue it goes on waiting. */
    method ErrorControlTask()
      requires Valid() && err == ErrIdle
      modifies this
      ensures Valid() && err == ErrIdle && old(run) <= run
      ensures StepsOf(run, ErrTask) == StepsOf(old(run), ErrTask)
              + if old(toErrorQueue) == [] then []
                else if old(toErrorQueue)[0] == SendCmdQueueError then [ErrTake, ErrCount, ErrEvaluate] else [ErrTake]
      ensures log.dropsCounted == old(log.dropsCounted)
              + if old(toErrorQueue) != [] && old(toErrorQueue)[0] == SendCmdQueueError then 1 else 0
      ensures old(toErrorQueue) == [] ==> View() == old(View())
      ensures old(toErrorQueue) != [] && old(toErrorQueue)[0] != SendCmdQueueError ==>
                toErrorQueue == old(toErrorQueue)[1..] && log == old(log) && cameraState == old(cameraState)
    {
      hide ParseResponse, FormatCommand, Run, CmdDiff, Evaluate, U32, StepsOf, Legal, SetLast, LastAttempts, Post;
      if toErrorQueue == [] {
        return;
      }
      ghost var s := View();
      var receivedError := toErrorQueue[0];
      toErrorQueue := toErrorQueue[1..];
      if receivedError == SendCmdQueueError {
        err := ErrCounting;
        Did(s, ErrTake);
        Interfere(ErrTask);
        CountDrop();
      } else {
        Did(s, ErrTake);
      }
    }

    /** The SEND_CMD_QUEUE_ERROR case of process_error. */
    method CountDrop()
      requires Valid() && err == ErrCounting
      modifies this
      ensures Valid() && err == ErrIdle && old(run) <= run
      ensures StepsOf(run, ErrTask) == StepsOf(old(run), ErrTask) + [ErrCount, ErrEvaluate]
      ensures log.dropsCounted == old(log.dropsCounted) + 1
    {
      hide ParseResponse, FormatCommand, Run, CmdDiff, Evaluate, U32, StepsOf, Legal, SetLast, LastAttempts, Post;
      hide Apply, Enabled, TaskOf;
      CountDropped();
      Interfere(ErrTask);
      EvaluationsOfTasks(View());
      EvaluateAs(ErrEvaluate);
    }

    /** The increment in it. */
    method CountDropped()
      requires Valid() && err == ErrCounting
      modifies this
      ensures Valid() && err == ErrEvaluating && run == old(run) + [ErrCount]
      ensures StepsOf(run, ErrTask) == StepsOf(old(run), ErrTask) + [ErrCount]
      ensures log.dropsCounted == old(log.dropsCounted) + 1
    {
      hide ParseResponse, FormatCommand, Run, CmdDiff, Evaluate, U32, StepsOf, Legal, SetLast, LastAttempts, Post;
      ghost var s := View();
      cmdsReceived := U32(cmdsReceived + 1);
      err, log := ErrEvaluating, log.(received := log.received + 1, dropsCounted := log.dropsCounted + 1);
      Did(s, ErrCount);
    }

    /** xQueueSend(to_error_queue, ..., 0), its result ignored. */
    method PostError(e: ErrorCode)
      modifies this`toErrorQueue
      ensures toErrorQueue == Post(old(toErrorQueue), e)
      ensures toErrorQueue == old(toErrorQueue) + if |old(toErrorQueue)| < 10 then [e] else []
    {
      if |toErrorQueue| < QUEUE_CAPACITY {
        toErrorQueue := toErrorQueue + [e];
      }
    }

    // ---------- uart_task.c ----------

    /** ready_handler. `replies[i]` is what is read after attempt i + 1, possibly nothing. */
    method ReadyHandler(replies: seq<string>)
      requires Valid() && uart == UartReady
      requires |replies| == 4 && forall i :: 0 <= i < |replies| ==> |replies[i]| <= RESPONSE_LEN
      modifies this
      ensures Valid() && uart == UartIdle && old(run) <= run && log.readies == old(log.readies)
      ensures old(log.jobs) <= log.jobs && |log.jobs| <= |old(log.jobs)| + 1
      ensures |log.jobs| > |old(log.jobs)| ==>
                log.jobs[|old(log.jobs)|] == JobFor(log.jobs[|old(log.jobs)|].cmd, replies)
      ensures old(cmdQueue) != [] ==>
                |log.jobs| == |old(log.jobs)| + 1 && log.jobs[|old(log.jobs)|].cmd == old(cmdQueue)[0]
      ensures StepsOf(run, UartTask) == StepsOf(old(run), UartTask) + [UartTake]
              + if |log.jobs| == |old(log.jobs)| then [] else HandlerSteps(replies)
    {
      hide ParseResponse, FormatCommand, Run, CmdDiff, Evaluate, U32, StepsOf, Legal, SetLast, LastAttempts, Post;
      hide Apply, Enabled, TaskOf;
      ghost var before := log.jobs;
      Interfere(UartTask);
      var taken, command := TakeCommand();
      if !taken {
        return;
      }
      var isAck := RetryLoop(command, before, replies);
      if !isAck {
        Abandon(command, before);
      }
    }

    /** The loop of ready_handler on the command it has taken. */
    method RetryLoop(command: DataCmd, ghost before: seq<Job>, replies: seq<string>) returns (isAck: bool)
      requires Valid() && uart == Writing(command, 0) && log.jobs == before + [Job(command, 0, InProgress)]
      requires |replies| == 4 && forall i :: 0 <= i < |replies| ==> |replies[i]| <= RESPONSE_LEN
      modifies this
      ensures Valid() && old(run) <= run && log.readies == old(log.readies)
      ensures isAck == HasAck(replies) && uart == if isAck then UartIdle else GaveUp(command)
      ensures !isAck ==> Attempts(replies) == MAX_ATTEMPTS
      ensures log.jobs == before + [Job(command, Attempts(replies), if isAck then Confirmed else InProgress)]
      ensures StepsOf(run, UartTask) == StepsOf(old(run), UartTask) + Tries(replies, Attempts(replies))
                                        + if isAck then [UartCount, UartEvaluate] else []
    {
      hide ParseResponse, FormatCommand, Run, CmdDiff, Evaluate, U32, StepsOf, Legal, SetLast, LastAttempts, Post;
      hide Apply, Enabled, TaskOf;
      Interfere(UartTask);
      var i := 0;
      isAck := false;
      while i <= 3 && !isAck
        invariant 0 <= i <= MAX_ATTEMPTS && Valid() && old(run) <= run && log.readies == old(log.readies)
        invariant isAck ==> i >= 1 && ParseResponse(replies[i - 1]).response == RESP_ACK
        invariant forall k :: 0 <= k < (if isAck then i - 1 else i) ==> ParseResponse(replies[k]).response != RESP_ACK
        invariant uart == if isAck then UartIdle else if i <= 3 then Writing(command, i) else GaveUp(command)
        invariant log.jobs == before + [Job(command, i, if isAck then Confirmed else InProgress)]
        invariant StepsOf(run, UartTask) == StepsOf(old(run), UartTask) + Tries(replies, i)
                                            + if isAck then [UartCount, UartEvaluate] else []
      {
        isAck := Attempt(command, i, before, replies[i]);
        Interfere(UartTask);
        i := i + 1;
      }
      AttemptsUntil(replies, if isAck then i - 1 else i);
    }

    /** xQueueReceive(cmd_queue, ..., 0). */
    method TakeCommand() returns (taken: bool, command: DataCmd)
      requires Valid() && uart == UartReady
      modifies this
      ensures Valid() && old(run) <= run && log.readies == old(log.readies) && taken == (old(cmdQueue) != [])
      ensures taken ==> command == old(cmdQueue)[0] && uart == Writing(command, 0)
                        && log.jobs == old(log.jobs) + [Job(command, 0, InProgress)]
      ensures !taken ==> uart == UartIdle && log.jobs == old(log.jobs)
      ensures StepsOf(run, UartTask) == StepsOf(old(run), UartTask) + [UartTake]
    {
      hide ParseResponse, FormatCommand, Run, CmdDiff, Evaluate, U32, StepsOf, Legal, SetLast, LastAttempts, Post;
      ghost var s := View();
      taken, command := cmdQueue != [], NO_CMD;
      if taken {
        command := cmdQueue[0];
        cmdQueue := cmdQueue[1..];
        uart, log := Writing(command, 0), log.(jobs := log.jobs + [Job(command, 0, InProgress)]);
      } else {
        uart := UartIdle;
      }
      Did(s, UartTake);
    }

    /** The end of ready_handler without an ACK. */
    method Abandon(command: DataCmd, ghost before: seq<Job>)
      requires Valid() && uart == GaveUp(command) && log.jobs == before + [Job(command, MAX_ATTEMPTS, InProgress)]
      modifies this
      ensures Valid() && uart == UartIdle && old(run) <= run && log.readies == old(log.readies)
      ensures log.jobs == before + [Job(command, MAX_ATTEMPTS, Abandoned)]
      ensures toErrorQueue == old(toErrorQueue) + if |old(toErrorQueue)| < 10 then [NoAck] else []
      ensures StepsOf(run, UartTask) == StepsOf(old(run), UartTask) + [UartAbandon]
    {
      hide ParseResponse, FormatCommand, Run, CmdDiff, Evaluate, U32, StepsOf, Legal;
      ghost var s := View();
      PostError(NoAck);
      uart, log := UartIdle, log.(jobs := SetLast(log.jobs, LastAttempts(log.jobs), Abandoned));
      Did(s, UartAbandon);
    }

    /** One pass of the retry loop: write the frame, read a reply, and count an ACK. */
    method Attempt(command: DataCmd, i: nat, ghost before: seq<Job>, reply: string) returns (isAck: bool)
      requires Valid() && uart == Writing(command, i) && i <= 3 && |reply| <= RESPONSE_LEN
      requires log.jobs == before + [Job(command, i, InProgress)]
      modifies this
      ensures Valid() && old(run) <= run && log.readies == old(log.readies)
      ensures isAck <==> ParseResponse(reply).response == RESP_ACK
      ensures uart == if isAck then UartIdle else if i < 3 then Writing(command, i + 1) else GaveUp(command)
      ensures log.jobs == before + [Job(command, i + 1, if isAck then Confirmed else InProgress)]
      ensures StepsOf(run, UartTask) == StepsOf(old(run), UartTask) + [UartWrite, UartRead(reply)]
                                        + if isAck then [UartCount, UartEvaluate] else []
    {
      hide ParseResponse, Run, StepsOf, Legal, SetLast, LastAttempts, Apply, Enabled, TaskOf;
      WriteFrame(command, i, before);
      Interfere(UartTask);
      isAck := AwaitAck(command, i, reply);
      SetLastOf(before, Job(command, i + 1, InProgress), i + 1, Confirmed);
    }

    /** uart_write_bytes of the formatted command. */
    method WriteFrame(command: DataCmd, i: nat, ghost before: seq<Job>)
      requires Valid() && uart == Writing(command, i) && log.jobs == before + [Job(command, i, InProgress)]
      modifies this
      ensures Valid() && run == old(run) + [UartWrite] && log.readies == old(log.readies)
      ensures uart == Awaiting(command, i) && log.jobs == before + [Job(command, i + 1, InProgress)]
      ensures log.wire == old(log.wire) + [FormatCommand(command)]
      ensures StepsOf(run, UartTask) == StepsOf(old(run), UartTask) + [UartWrite]
    {
      hide ParseResponse, FormatCommand, Run, CmdDiff, Evaluate, U32, StepsOf, Legal, SetLast, LastAttempts, Post;
      ghost var s := View();
      SetLastOf(before, Job(command, i, InProgress), i + 1, InProgress);
      uart := Awaiting(command, i);
      log := log.(wire := log.wire + [FormatCommand(command)],
                  jobs := SetLast(log.jobs, LastAttempts(log.jobs) + 1, InProgress));
      Did(s, UartWrite);
    }

    method AwaitAck(command: DataCmd, i: nat, reply: string) returns (isAck: bool)
      requires Valid() && uart == Awaiting(command, i) && i <= 3 && |reply| <= RESPONSE_LEN
      modifies this
      ensures Valid() && old(run) <= run && log.readies == old(log.readies)
      ensures isAck <==> ParseResponse(reply).response == RESP_ACK
      ensures uart == if isAck then UartIdle else if i < 3 then Writing(command, i + 1) else GaveUp(command)
      ensures log.jobs == if isAck then SetLast(old(log.jobs), LastAttempts(old(log.jobs)), Confirmed)
                          else old(log.jobs)
      ensures StepsOf(run, UartTask) == StepsOf(old(run), UartTask) + [UartRead(reply)]
                                        + if isAck then [UartCount, UartEvaluate] else []
    {
      hide ParseResponse, FormatCommand, Run, CmdDiff, Evaluate, U32, StepsOf, Legal, SetLast, LastAttempts, Post;
      ghost var s := View();
      var parsed := ParseRead(reply);
      isAck := parsed.response == RESP_ACK;
      if isAck {
        uart := Acked(command);
        Did(s, UartRead(reply));
        Interfere(UartTask);
        CmdSentOk();
      } else {
        uart := if i < 3 then Writing(command, i + 1) else GaveUp(command);
        Did(s, UartRead(reply));
      }
    }

    /** One turn of task_uart on received bytes. `replies` is what ready_handler reads if it is called. */
    method TaskUart(data: string, replies: seq<string>)
      requires Valid() && uart == UartIdle && |data| <= RESPONSE_LEN
      requires |replies| == 4 && forall i :: 0 <= i < |replies| ==> |replies[i]| <= RESPONSE_LEN
      modifies this
      ensures Valid() && uart == UartIdle && old(run) <= run
      ensures ParseResponse(data).response != 1 ==> log == old(log) && cmdQueue == old(cmdQueue)
      ensures var code := ParseResponse(data).response;
              code != 1 ==>
                toErrorQueue == old(toErrorQueue) + if code == -1 || |old(toErrorQueue)| >= 10 then []
                                                    else if code == 3 then [UartInvalidCmd]
                                                    else if code == 4 then [UartInvalidParams]
                                                    else [UartUnknownResponse]
      ensures ParseResponse(data).response == 1 ==>
                log.readies == old(log.readies) + 1 && |log.jobs| <= |old(log.jobs)| + 1
                && (old(cmdQueue) != [] ==>
                      |log.jobs| == |old(log.jobs)| + 1 && log.jobs[|old(log.jobs)|].cmd == old(cmdQueue)[0])
                && StepsOf(run, UartTask) == StepsOf(old(run), UartTask) + [UartReceive(data), UartTake]
                                             + if |log.jobs| == |old(log.jobs)| then [] else HandlerSteps(replies)
      ensures ParseResponse(data).response != 1 ==>
                run == old(run) + if ParseResponse(data).response == -1 then [] else [UartReceive(data)]
    {
      hide ParseResponse, FormatCommand, Run, CmdDiff, Evaluate, U32, StepsOf, Legal, SetLast, LastAttempts, Post;
      ghost var s := View();
      var ciaaResponse := ParseRead(data);
      if ciaaResponse.response != -1 {
        if ciaaResponse.response == RESP_READY {
          uart, log := UartReady, log.(readies := log.readies + 1);
          Did(s, UartReceive(data));
          ReadyHandler(replies);
        } else {
          PostError(ResponseError(ciaaResponse.response));
          Did(s, UartReceive(data));
        }
      }
    }

    // ---------- web_socket.c ----------

    /** The DATA case of websocket_event_handler for a non-empty text message; `memory` is whether malloc
        succeeds. An id that is 0 as a uint16_t is outside this model (see CmdBuffer.ParseJson). */
    method WebsocketData(cache: CmdBuffer, memory: bool, message: Json)
      requires Valid() && ws == WsIdle && cache.Valid()
      requires IsCommand(message) ==> message.id.value % 0x1_0000 != 0
      modifies this, cache, cache.buffer
      ensures Valid() && ws == WsIdle && cache.Valid() && old(run) <= run
      ensures !memory || !IsCommand(message) ==>
                var e := if memory then ParseFailed else NullBuffer;
                && log == old(log) && cmdQueue == old(cmdQueue) && run == old(run) + [WsReport(e)]
                && toErrorQueue == old(toErrorQueue) + if |old(toErrorQueue)| < 10 then [e] else []
      ensures memory && IsCommand(message) ==>
                var number, id, intensity := message.cmd.value, message.id.value, message.intensity.value;
                var cmd := CommandOf(number, id, intensity);
                && (cmd.cmd - number) % 0x1_0000_0000 == 0 && (cmd.id - id) % 0x1_0000 == 0
                && (cmd.intensity - intensity) % 0x100 == 0
                && (0 <= number <= 99999 && 0 < id < 0x1_0000 && 0 <= intensity < 0x100 ==>
                      DecodeCommand(FormatCommand(cmd)) == Some((number, intensity, id)))
      ensures memory && IsCommand(message) ==>
                var cmd := CommandOf(message.cmd.value, message.id.value, message.intensity.value);
                || (log.enqueued == old(log.enqueued) + [cmd] && log.drops == old(log.drops)
                    && StepsOf(run, WsTask)
                       == StepsOf(old(run), WsTask) + [WsMessage(cmd), WsEnqueue, WsCount, WsEvaluate])
                || (log.enqueued == old(log.enqueued) && log.drops == old(log.drops) + 1
                    && StepsOf(run, WsTask) == StepsOf(old(run), WsTask) + [WsMessage(cmd), WsTimeout, WsPostDrop])
    {
      hide ParseResponse, FormatCommand, Run, CmdDiff, Evaluate, U32, StepsOf, Legal, SetLast, LastAttempts, Post;
      ghost var s := View();
      if !memory {
        PostError(NullBuffer);
        Did(s, WsReport(NullBuffer));
        return;
      }
      var status, id := cache.ParseJson(message);
      if status != OK {
        PostError(ParseFailed);
        Did(s, WsReport(ParseFailed));
        return;
      }
      ghost var parsed := CommandOf(message.cmd.value, message.id.value, message.intensity.value);
      TakeAfterPush(old(cache.ops), parsed);
      FieldsOnWire(message);
      var newCmd;
      status, newCmd := cache.TakeCmd(id.value);
      if status != OK {
        assert false; // the source reports PARSE_ERROR here, but a command just pushed is always found
      }
      ws := WsSending(newCmd);
      Did(s, WsMessage(newCmd));
      SendCommand(newCmd);
    }

    /** xQueueSend(cmd_queue) with its timeout, and what follows either way. */
    method SendCommand(newCmd: DataCmd)
      requires Valid() && ws == WsSending(newCmd)
      modifies this
      ensures Valid() && ws == WsIdle && old(run) <= run
      ensures (log.enqueued == old(log.enqueued) + [newCmd] && log.drops == old(log.drops)
               && StepsOf(run, WsTask) == StepsOf(old(run), WsTask) + [WsEnqueue, WsCount, WsEvaluate])
           || (log.enqueued == old(log.enqueued) && log.drops == old(log.drops) + 1
               && StepsOf(run, WsTask) == StepsOf(old(run), WsTask) + [WsTimeout, WsPostDrop])
    {
      hide ParseResponse, FormatCommand, Run, CmdDiff, Evaluate, U32, StepsOf, Legal, SetLast, LastAttempts, Post;
      hide Apply, Enabled, TaskOf;
      Interfere(WsTask);
      var sent := QueueSend(newCmd);
      Interfere(WsTask);
      if !sent {
        ReportDrop();
        return;
      }
      CmdReceived();
    }

    /** xQueueSend(cmd_queue), which gives up on a queue that stays full. */
    method QueueSend(newCmd: DataCmd) returns (sent: bool)
      requires Valid() && ws == WsSending(newCmd)
      modifies this
      ensures Valid() && old(run) <= run && sent == (|old(cmdQueue)| < QUEUE_CAPACITY)
      ensures ws == if sent then WsUncounted else WsDropping
      ensures log.enqueued == old(log.enqueued) + (if sent then [newCmd] else [])
      ensures log.drops == old(log.drops) + if sent then 0 else 1
      ensures StepsOf(run, WsTask) == StepsOf(old(run), WsTask) + [if sent then WsEnqueue else WsTimeout]
    {
      hide ParseResponse, FormatCommand, Run, CmdDiff, Evaluate, U32, StepsOf, Legal, SetLast, LastAttempts, Post;
      ghost var s := View();
      sent := |cmdQueue| < QUEUE_CAPACITY;
      if sent {
        cmdQueue := cmdQueue + [newCmd];
        ws, log := WsUncounted, log.(enqueued := log.enqueued + [newCmd]);
        Did(s, WsEnqueue);
      } else {
        QueueIsBounded();
        ws, log := WsDropping, log.(drops := log.drops + 1);
        Did(s, WsTimeout);
      }
    }

    lemma QueueIsBounded()
      requires Valid()
      ensures |cmdQueue| <= QUEUE_CAPACITY
    {
      hide Inv, Run;
      InitialInv();
      RunKeepsInv(Initial(), run);
      InvJobs(View());
    }

    method ReportDrop()
      requires Valid() && ws == WsDropping
      modifies this
      ensures Valid() && ws == WsIdle && old(run) <= run
      ensures log.enqueued == old(log.enqueued) && log.drops == old(log.drops)
      ensures StepsOf(run, WsTask) == StepsOf(old(run), WsTask) + [WsPostDrop]
      ensures toErrorQueue == Post(old(toErrorQueue), SendCmdQueueError)
    {
      hide ParseResponse, FormatCommand, Run, StepsOf, Legal, SetLast, LastAttempts;
      ghost var s := View();
      log := log.(dropsUnreported := log.dropsUnreported + if |toErrorQueue| < QUEUE_CAPACITY then 0 else 1);
      PostError(SendCmdQueueError);
      ws := WsIdle;
      Did(s, WsPostDrop);
    }

    /** The DISCONNECTED case: an error is posted and STOP is written. */
    method WebsocketDisconnected()
      requires Valid() && ws == WsIdle
      modifies this
      ensures Valid() && ws == WsIdle && old(run) <= run
      ensures log.enqueued == old(log.enqueued) && log.drops == old(log.drops)
      ensures log.wire != [] && log.wire[|log.wire| - 1] == STOP_FRAME
      ensures StepsOf(run, WsTask) == StepsOf(old(run), WsTask) + [WsDisconnect, WsStop]
    {
      hide ParseResponse, FormatCommand, Run, CmdDiff, Evaluate, U32, StepsOf, Legal, SetLast, LastAttempts, Post;
      hide Apply, Enabled, TaskOf;
      ReportDisconnect();
      Interfere(WsTask);
      WriteStop();
    }

    method ReportDisconnect()
      requires Valid() && ws == WsIdle
      modifies this
      ensures Valid() && ws == WsStopping && run == old(run) + [WsDisconnect] && log == old(log)
      ensures StepsOf(run, WsTask) == StepsOf(old(run), WsTask) + [WsDisconnect]
      ensures toErrorQueue == Post(old(toErrorQueue), ErrorCode.WebsocketDisconnected)
    {
      hide ParseResponse, FormatCommand, Run, StepsOf, Legal, SetLast, LastAttempts, Post;
      ghost var s := View();
      PostError(ErrorCode.WebsocketDisconnected);
      ws := WsStopping;
      Did(s, WsDisconnect);
    }

    /** uart_send_stop_to_ciaa. */
    method WriteStop()
      requires Valid() && ws == WsStopping
      modifies this
      ensures Valid() && ws == WsIdle && run == old(run) + [WsStop]
      ensures log == old(log).(wire := old(log.wire) + [STOP_FRAME])
      ensures StepsOf(run, WsTask) == StepsOf(old(run), WsTask) + [WsStop]
    {
      hide ParseResponse, FormatCommand, Run, StepsOf, Legal, SetLast, LastAttempts, Post;
      ghost var s := View();
      ws, log := WsIdle, log.(wire := log.wire + [STOP_FRAME]);
      Did(s, WsStop);
    }
  }

  lemma FieldsOnWire(message: Json)
    requires IsCommand(message)
    ensures var number, id, intensity := message.cmd.value, message.id.value, message.intensity.value;
            var cmd := CommandOf(number, id, intensity);
            && (cmd.cmd - number) % 0x1_0000_0000 == 0 && (cmd.id - id) % 0x1_0000 == 0
            && (cmd.intensity - intensity) % 0x100 == 0
            && (0 <= number <= 99999 && 0 < id < 0x1_0000 && 0 <= intensity < 0x100 ==>
                  DecodeCommand(FormatCommand(cmd)) == Some((number, intensity, id)))
  {
    hide DecodeCommand, FormatCommand, CommandOf;
    var number, id, intensity := message.cmd.value, message.id.value, message.intensity.value;
    CommandFields(number, id, intensity);
    if 0 <= number <= 99999 && 0 < id < 0x1_0000 && 0 <= intensity < 0x100 { MessageOnWire(number, id, intensity); }
  }

  lemma SetLastOf(jobs: seq<Job>, j: Job, attempts: nat, outcome: Outcome)
    ensures SetLast(jobs + [j], attempts, outcome) == jobs + [j.(attempts := attempts, outcome := outcome)]
    ensures LastAttempts(jobs + [j]) == j.attempts
  {
    assert (jobs + [j])[..|jobs|] == jobs;
  }

  lemma EvaluationsOfTasks(s: State)
    ensures TaskOf(WsEvaluate) == WsTask && TaskOf(UartEvaluate) == UartTask && TaskOf(ErrEvaluate) == ErrTask
    ensures IsEvaluation(s, WsEvaluate) <==> s.ws == WsEvaluating
    ensures IsEvaluation(s, UartEvaluate) <==> s.uart == UartEvaluating
    ensures IsEvaluation(s, ErrEvaluate) <==> s.err == ErrEvaluating
  {
  }

  lemma OtherTasksStep(s: State, a: Action, me: Task)
    requires TaskOf(a) != me
    ensures var t := Apply(s, a);
      && (me == UartTask ==> t.uart == s.uart && t.log.jobs == s.log.jobs && t.log.readies == s.log.readies
                             && t.log.sentOk == s.log.sentOk && s.cmdQueue <= t.cmdQueue)
      && (me == WsTask ==> t.ws == s.ws && t.log.enqueued == s.log.enqueued && t.log.drops == s.log.drops)
      && (me == ErrTask ==> t.err == s.err && t.log.dropsCounted == s.log.dropsCounted
                            && s.errQueue <= t.errQueue)
  {
  }
}
