# Rover firmware: a verified model of the camera stream and the command pipeline

The firmware relays commands from a WebSocket to a UART and streams camera frames to a server at the same
time. This Dafny project models the six files between the driver calls and proves what they promise:

| file | models |
|---|---|
| `Numerals.dfy` | `%u` and `%x` printing, and the readers they are inverse to |
| `ChunkedCoding.dfy`, `MultipartStream.dfy` | the bytes of an upload connection (section 7.1 of RFC 9112 around section 5.1.1 of RFC 2046), and a byte-at-a-time recipient of each layer |
| `DoubleBuffer.dfy` | the capture task's two frame buffers as a step system, read with no lock held |
| `Backoff.dfy` | the HTTP error streak and its delays over runs of iterations |
| `CamTask.dfy` | `cam_task.c` itself: capture task, HTTP writers, upload task |
| `UartCodec.dfy` | command frames and response frames on the UART |
| `CommandCache.dfy` | the ten-slot command buffer of `json_parser.c` |
| `Pipeline.dfy` | the WebSocket handler, UART task and error task as a protocol of atomic steps |
| `PipelineRuns.dfy` | runs that show which bounds in the theorems about the camera state are needed |
| `RoverTasks.dfy` | the code of these three tasks |
| `DnsResponder.dfy` | the captive-portal DNS server and a message reader from sections 4.1 and 4.1.4 of RFC 1035 |

`dafny verify dfyconfig.toml` checks everything.

## How concurrency is modelled

Both concurrent parts have a step system on values (`DoubleBuffer`, `Pipeline`) with its invariants and
theorems over all runs, and classes with the source's variables (`CamTask`, `RoverTasks`) whose methods call
`Interfere`, any number of steps of the other tasks, wherever the source can be preempted. The class
invariants tie the variables to the step system: `LatestFrame.Interfere` is a run of capture steps, and a
`Rover` is always in a state that some run of `Pipeline` leads to, so the theorems about runs hold of the code.

A critical section, a queue operation, a UART write or read, a counter increment and one
`evaluate_camera_state` are each one step. The window between `xQueueSend` and `error_control_cmd_received`,
and the one between an increment and the evaluation after it, are kept open. Increments are taken as atomic,
although C does not make `++` on a `volatile` atomic. `memcpy` is taken to copy ascending, byte by byte, and
the subtraction of the two counters as `int32_t` to wrap, which C leaves undefined.

The fields `ws`, `uart`, `err` and `log` of `Rover`, and its `run`, are not variables of the firmware: they say
where each task is and what happened. What a method of `Rover` did is stated by the steps of its task that it
added to the run, with steps of other tasks anywhere in between.

## What the environment may do

- What the network makes of each `esp_http_client_write` is a parameter, one number a call: a negative one is a
  failure after any number of bytes, any other says how many bytes are taken, at least 1 and at most those given.
  Each byte is read while the capture task may run. A return of 0 would make `http_write_exact` spin and is read
  as 1.
- Whether a client can be initialised and opened, whether the camera is suspended, what bytes the UART
  delivers and what messages the WebSocket delivers are parameters or arbitrary choices.
- cJSON is a message that is invalid or an object whose three members may be numbers, each the int that cJSON
  keeps of it. What `recvfrom` delivers is a parameter.
- The server is told the Content-Type of the request and cuts the stream at the boundary that names; it takes
  JPEG parts with a Content-Length.
- A byte on a text wire is a Dafny `char`. No proof uses an upper bound on it, so the results hold for all 256
  byte values.

## Where code and documentation differ

- The degrade threshold in the code is 6 (`error_control.h:33`); `firmware/docs/error_control.md` says 5.
- The retry loop makes four attempts (`uart_task.c:128`); its log message says three.
- `firmware/docs/cam_task.md` describes an HTTP server on the device; the code uploads to a server.
- The cap of 5000 ms on the backoff is never reached: the delay stops growing at 4000 ms.
- The ACK check ignores the id of the response, so no theorem says that an ACK belongs to the command in flight.

## Promises that fail, and exactly when

- A frame of length 0 would end the stream: `EmptyFrames` says what the server gets then. The snapshot's length
  check rules it out.
- A frame can be torn while it is read. A schedule of capture steps between the reads delivers the frame the
  snapshot named, for all contents of later frames, if and only if no store two, four, ... ordinals later has
  copied past a byte before that byte is read: `ReadExactly`. `ReadDelivers` says which byte is read under every
  schedule, and `TornRead` gives a torn read for every state and every byte of the newest frame. Framing is not
  affected, and what a run sends is what its own schedule delivers: `DeliveryWasRead`.
- `count` is the number of occupied cache slots exactly if no slot was pushed twice or all ten slots were
  pushed: `CountIsOccupied`. One id pushed again and again is the failing input: `OneIdPushedAgain`.
- A command whose three numbers have more than 13 digits is sent truncated and does not decode: `CommandRoundTrip`;
  `CommandTooLong` is one.
- A query with anything after its questions, such as an EDNS record, gets a response that does not read as
  intended: `ReplyIsCorrectExactly`.
- The camera is restored when the difference of the counts is at most two, or when it is 2^31 or more modulo
  2^32 and reads as negative: `CameraMoves`, for every run and any number of lost commands. The other theorems
  about the camera state assume that at most `MAX_LOST` = 2^31 - 12 commands have been lost, a condition on the
  state reached. Any number can be lost (`AnyNumberLost`), and with one more than `MAX_LOST` a suspended camera
  is restored with a full queue (`RestoredByWrap`). The camera is suspended straight from NORMAL exactly at a
  difference of 10 or more that does not read as negative (`DirectSuspension`), which takes more than
  `MAX_LOST` lost commands (`NoDirectSuspension`) and is possible then (`SuspendedFromNormal`). Conservation and
  the trace theorem need no such condition, and a run agrees with the one on natural-number counters until the
  difference leaves an `int32_t` (`WrappingRefinesNaturals`).
- `s_latest_seq` may wrap: frames are named by unbounded ordinals and the 32-bit number is the ordinal modulo
  2^32, so nothing about order or content assumes fewer than 2^32 stores.

## Model

| member | source | states |
|---|---|---|
| ChunkedCoding.ReadChunk | firmware/components/cam_task/src/cam_task.c:127-152 | a chunk as written is read back by an RFC 9112 recipient as its data, whatever bytes it holds, and leaves it ready for the next; an empty chunk is the last-chunk that ends the body |
| MultipartStream.StreamRoundTrip | firmware/components/cam_task/src/cam_task.c:386-412 | for every sequence of non-empty frames with any bytes, a server that is given the request's Content-Type, de-chunks, cuts at the boundary announced there and takes JPEG parts by Content-Length gets exactly those frames in order, and the stream stays open |
| MultipartStream.DelimiterIsAnnounced | firmware/components/cam_task/src/cam_task.c:362-408 | the delimiter that is written is "--" and the boundary parameter of the Content-Type |
| Numerals.DigitsAre | firmware/components/cam_task/src/cam_task.c:127-133 | the sixteen digits of "%x" are 0-9 and a-f, the ten of "%u" 0-9 |
| MultipartStream.EmptyFrames | firmware/components/cam_task/src/cam_task.c:87-90 | for arbitrary frames the server gets those up to the first empty one, and the stream survives if and only if none is empty |
| MultipartStream.FrameEnd | firmware/components/cam_task/src/cam_task.c:398-412 | with the last data byte of a frame on the wire the server has the frame, one byte earlier it does not |
| MultipartStream.CutStream | firmware/components/cam_task/src/cam_task.c:398-420 | a connection cut at any byte while a frame is written is well framed, and the server has the committed frames, plus that frame exactly when its last data byte got out |
| MultipartStream.CutBoundary | firmware/components/cam_task/src/cam_task.c:386-393 | the same for a connection cut inside its opening boundary: well framed, no frame |
| MultipartStream.PartHeaderFits | firmware/components/cam_task/src/cam_task.c:398-406 | the part header always fits its buffer, so the size check skips no frame |
| MultipartStream.HeaderText | firmware/components/cam_task/src/cam_task.c:398-402 | the part header is, byte for byte, the format of the source with the length in decimal digits |
| DoubleBuffer.StepKeepsInv | firmware/components/cam_task/src/cam_task.c:98-110 | every capture step keeps: byte i of a buffer is byte i of the latest store into it that has copied past i; index and length are those of the newest frame; published frames and begun stores only grow |
| DoubleBuffer.RunKeepsInv | firmware/components/cam_task/src/cam_task.c:251-296 | the same after any run of capture steps |
| DoubleBuffer.ByteOfFrame | firmware/components/cam_task/src/cam_task.c:63-110 | in every state, the byte in the buffer of a frame is that of the latest store into the buffer that has copied past it, and the frame's own exactly when no store two, four, ... ordinals later has |
| DoubleBuffer.ReadDelivers | firmware/components/cam_task/src/cam_task.c:98-152 | for every schedule of capture steps between the reads, each byte read is that of the latest store into the frame's buffer that has copied past it by then |
| DoubleBuffer.ReadExactly | firmware/components/cam_task/src/cam_task.c:75-110 | a schedule delivers the frame the snapshot named, whatever later frames of the same lengths contain, if and only if each byte is read before a store two, four, ... ordinals later has copied past it |
| DoubleBuffer.InterleavedRead | firmware/components/cam_task/src/cam_task.c:75-110 | in every interleaving of capture steps with the reads, reading each byte in time in that sense delivers the frame the snapshot named |
| DoubleBuffer.ReadIsFrame | firmware/components/cam_task/src/cam_task.c:338-412 | the whole frame is read if no second later store has begun by the last read |
| DoubleBuffer.TornRead | firmware/components/cam_task/src/cam_task.c:98-110 | for every state with a non-empty published frame, stores in progress or not, and every byte of it: capture steps after which the read goes on with any byte one likes |
| DoubleBuffer.ReadAtIsReadBytes | firmware/components/cam_task/src/cam_task.c:75-125 | bytes that were read from a buffer at successive moments of a run of capture steps are what ReadBytes says of the schedule the run itself gives, so the theorems about schedules hold of them |
| DoubleBuffer.ReadAtIsFromStores | firmware/components/cam_task/src/cam_task.c:75-125 | whatever was overwritten meanwhile, each byte so read is, in its place, a byte of the frame named or of a store two, four, ... ordinals later |
| Backoff.FailuresCostTime | firmware/components/cam_task/src/cam_task.c:43-50 | over any iterations without a success, with suspensions and waits in between, the streak is at least min(failures, 255) and the sleep at least the least possible for that many failures |
| Backoff.BackoffBound | firmware/components/cam_task/src/cam_task.c:320-334 | in any stretch of a run without a success, n >= 8 failures cost at least 3500 + 4000 (n - 8) ms of backoff |
| Backoff.BoundIsReached | firmware/components/cam_task/src/cam_task.c:320-334 | that bound is exact: single errors after a success sleep no longer |
| Backoff.ConnectErrors | firmware/components/cam_task/src/cam_task.c:376-380 | n connect errors straight after a success leave the streak at min(2n, 255) and sleep 0 up to the third, 1000 ms in the fourth and 4000 ms in each further one |
| Backoff.RecoveryCost | firmware/components/cam_task/src/cam_task.c:320-334 | after n >= 8 single errors every idle iteration and the one that succeeds sleep 4000 ms too, and then there is no backoff |
| Backoff.DelayIsMonotone | firmware/components/cam_task/src/cam_task.c:320-334 | the delay does not decrease with the streak and never exceeds 4000 ms |
| CamTask.LatestFrame.CopyByte | firmware/components/cam_task/src/cam_task.c:98-103 | one byte of the copy is the Copy step on the array that is not published |
| CamTask.LatestFrame.Publish | firmware/components/cam_task/src/cam_task.c:105-109 | the critical section is the Publish step; the 32-bit sequence number is the ordinal modulo 2^32 |
| CamTask.LatestFrame.StoreFrame | firmware/components/cam_task/src/cam_task.c:98-110 | a whole store publishes exactly its frame as the next ordinal |
| CamTask.LatestFrame.Interfere | firmware/components/cam_task/src/cam_task.c:251-296 | whatever the capture task does while the upload task waits is a run of DoubleBuffer steps |
| CamTask.LatestFrame.Snapshot | firmware/components/cam_task/src/cam_task.c:75-96 | succeeds exactly when there is a newest frame, it is not empty and its sequence number is not 0, and then names its buffer, length and number |
| CamTask.Transport.HttpWriteExact | firmware/components/cam_task/src/cam_task.c:112-125 | under any partial writes: on success exactly `len` bytes are out, on failure at most that many; text goes out as given, and each byte of a frame is the one that stood in its buffer when it was read, at moments of the capture task's run that are in order; it fails exactly when the network answers a call with a failure, and makes no call after that |
| CamTask.Transport.HttpWriteChunk | firmware/components/cam_task/src/cam_task.c:127-152 | on success one whole chunk is out, on failure a prefix of one; its content always has the announced length, whatever the capture task does, and was read in the same way |
| CamTask.Uploader.CloseAndReset | firmware/components/cam_task/src/cam_task.c:52-61 | the connection is filed with the uploads committed on it and the one it was cut in; no client and a zero frame count remain |
| CamTask.Uploader.NextFrame | firmware/components/cam_task/src/cam_task.c:336-348 | there is something to send exactly when the newest frame stored is not empty, its number is not 0 and is not the number sent last; it is then newer than every frame sent, also when numbers wrap |
| CamTask.Uploader.OpenStream | firmware/components/cam_task/src/cam_task.c:350-396 | either a stream is open whose wire is exactly its committed frames, on a request that announces boundary=frame, or there is no client and the streak is min(255, old + 2) if the client was initialised and the open gave a connect error, min(255, old + 1) for any other cause: no client, another open error, or a write that the network failed |
| CamTask.Uploader.Backoff | firmware/components/cam_task/src/cam_task.c:320-334 | the loop sleeps 0, 500, 1000, 2000 or 4000 ms for a streak below 5, of 5, 6, 7, or above |
| CamTask.Uploader.SendPart | firmware/components/cam_task/src/cam_task.c:398-413 | on success the wire is the stream with one more part, on failure it lies between the two streams; either way the part has the announced length and its bytes are those read, from the snapshot on, of the buffer of the frame named |
| CamTask.Uploader.UploadIteration | firmware/components/cam_task/src/cam_task.c:307-430 | keeps the loop-head invariant: stream open iff client set, frame count is the parts on the current connection, wire is exactly their stream, every committed upload was read in the capture task's run of the newest frame at its snapshot, ordinals sent strictly increase; streak and sleep change by the stated numbers; a frame is sent, or there was nothing new, or the client could not be opened, or the network failed the last write; a frame sent is at least as new as the newest one stored when the iteration began |
| CamTask.SomethingNew | firmware/components/cam_task/src/cam_task.c:336-348 | there is something new exactly if a frame was stored, the newest is not empty, and its 32-bit number is not 0 and not the one sent last |
| CamTask.CameraTask | firmware/components/cam_task/src/cam_task.c:251-296 | as many frames are added as captures were made with at most 32768 bytes, each such capture at the place given by how many of those before it are such; if all are, the added frames are the captures |
| CamTask.CameraUploadTask | firmware/components/cam_task/src/cam_task.c:299-430 | the loop-head invariant holds after any number of iterations and any behaviour of the environment; the suspended iterations are exactly those it asks for; committed ordinals strictly increase across reconnects and suspensions |
| CamTask.ServerOfClosedConnection | firmware/components/cam_task/src/cam_task.c:410-420 | on every closed connection of any run the stream is well framed to its last byte and the server has the uploads committed on it, in order; if a write failed in an upload, also that one exactly when its last data byte got out, newer than all before; each of them WasRead |
| CamTask.DeliveryWasRead | firmware/components/cam_task/src/cam_task.c:336-413 | what an upload carries is ReadBytes of the state at its snapshot and of the run's own schedule: as long as the frame, made of bytes of stores into its buffer, and the frame itself if each byte was read in time, in particular if no second later store had begun by the last read |
| CamTask.ServerOfOpenConnection | firmware/components/cam_task/src/cam_task.c:422-428 | on the open connection the server has exactly the committed uploads, s_frame_count of them, and each WasRead |
| UartCodec.CommandRoundTrip | firmware/components/json-parser/src/json_parser.c:53-60 | the formatted frame decodes back to (cmd, intensity, id) exactly when the three numbers have at most 13 digits together, and otherwise not at all |
| UartCodec.CommandTooLong | firmware/components/uart_task/src/uart_task.c:120-123 | the failing input: type 100000, the least beyond OrdinaryCommandsFit, with intensity 255 and id 65535 is cut off and does not decode |
| UartCodec.OrdinaryCommandsFit | firmware/components/uart_task/src/uart_task.c:120-123 | every command type up to 99999 decodes back with any intensity and id |
| UartCodec.CommandIsNotStop | firmware/components/uart_task/src/uart_task.c:53-57 | no command with a nonzero id is written as the STOP frame, truncated or not |
| UartCodec.ResponseRoundTrip | firmware/components/uart_task/src/uart_task.c:196-234 | parse_data returns the code and the id of every formatted response that fits 13 bytes with any CR/LF ending |
| UartCodec.ResponsesFit | firmware/include/communication.h:12-16 | one-digit codes and 16-bit ids always fit with up to two bytes of ending |
| UartCodec.AcceptedNumbersAreSmall | firmware/components/uart_task/src/uart_task.c:220-231 | in any 13 bytes that sscanf accepts in full, blanks and signs included, both numbers are below 10^7 in size, so no int overflows |
| UartCodec.OnlyFirstOverflows | firmware/components/uart_task/src/uart_task.c:220-231 | in any 13 bytes, rejected ones included, only the first number can be beyond int, and then the frame is rejected |
| UartCodec.FirstOverflows | firmware/components/uart_task/src/uart_task.c:220-231 | a frame of 13 bytes whose first number is beyond int |
| UartCodec.ParseData | firmware/components/uart_task/src/uart_task.c:196-234 | the in-place parser computes ParseResponse of the bytes read, returns -1 and 65535 for lengths out of range, and changes at most the one byte after the trimmed frame |
| UartCodec.ParseExactly | firmware/components/uart_task/src/uart_task.c:196-234 | over all reads: if the 1 to 13 bytes without line ends end in E, and up to a NUL are "S:a:b:E" and possibly more, with a and b blanks, an optional sign and digits, the result is the code a denotes and the id b denotes as a uint16_t; otherwise -1 and 65535 |
| UartCodec.EndsRetry | firmware/components/uart_task/src/uart_task.c:135 | exactly the reads of that form with code 0 are an ACK, with code 1 a READY; no bytes are neither |
| CommandCache.CacheRefinesHistory | firmware/components/json-parser/src/json_parser.c:62-109 | after any pushes and modifications the ten slots answer every id as the full history does: found exactly if it was the last id pushed into its slot, with its latest version |
| CommandCache.LookupMeans | firmware/components/json-parser/src/json_parser.c:62-109 | the history lookup in positions: an id is found exactly if it was pushed and no other id a multiple of ten away was pushed since, and then with the command of the last operation under it |
| CommandCache.NewestIsLastPush | firmware/components/json-parser/src/json_parser.c:102 | newest_id is the id of the last push, 0 before the first |
| CommandCache.TakeAfterPush | firmware/components/json-parser/src/json_parser.c:48 | a command that was just pushed is found |
| CommandCache.SlidingWindow | firmware/components/json-parser/src/json_parser.c:62-75 | after consecutive ids exactly the last ten are found, each with its command |
| CommandCache.CountIsOccupied | firmware/components/json-parser/src/json_parser.c:94-108 | after any pushes and modifications, count is the number of occupied slots if and only if no slot was pushed twice or all ten were pushed |
| CommandCache.OccupiedIsPushed | firmware/components/json-parser/src/json_parser.c:77-108 | after any history there are as many occupied slots as slots that pushes went to |
| CommandCache.OneIdPushedAgain | firmware/components/json-parser/src/json_parser.c:94-108 | the failing input: n >= 1 pushes of one id occupy one slot and count n, or ten |
| CommandCache.IndexIsSlot | firmware/components/json-parser/src/json_parser.c:68-100 | the `uint8_t` index of push, take_cmd and modify_cmd is one of the ten slots exactly for nonzero ids; for id 0 it is 255 |
| CommandCache.CountIsPushes | firmware/components/json-parser/src/json_parser.c:103-106 | count is the number of pushes up to ten and at least the number of occupied slots |
| CommandCache.CountOfConsecutive | firmware/components/json-parser/src/json_parser.c:94-108 | for consecutive ids count is the number of occupied slots |
| CommandCache.CmdBuffer.Push | firmware/components/json-parser/src/json_parser.c:94-109 | the array follows the history with one more push |
| CommandCache.CmdBuffer.TakeCmd | firmware/components/json-parser/src/json_parser.c:62-75 | status and command are those of the history lookup |
| CommandCache.CmdBuffer.ModifyCmd | firmware/components/json-parser/src/json_parser.c:77-92 | replaces a command that is found, reports the others, and changes no other id's answer |
| CommandCache.CmdBuffer.ParseJson | firmware/components/json-parser/src/json_parser.c:14-51 | a message with three numbers pushes a command whose cmd, id and intensity are those numbers modulo 2^32, 2^16 and 2^8; any other changes nothing |
| CommandCache.CommandFields | firmware/components/json-parser/src/json_parser.c:29-46 | each field is its own member of the message: unchanged when in range, and otherwise what is left of it in 32, 16 and 8 bits |
| CommandCache.MessageOnWire | firmware/components/json-parser/src/json_parser.c:14-60 | from message to UART: for a command up to 99999 and an id and intensity in range, the frame of the parsed command decodes to the message's cmd, intensity and id |
| Pipeline.RunKeepsInv | firmware/components/uart_task/src/uart_task.c:107-164 | every interleaving of the tasks keeps the queue bounds, counters, jobs, drops, UART trace and camera bands |
| Pipeline.ConservationOfRuns | firmware/components/error_control/src/error_control.c:295-305 | in every run received - sent_ok = queued + in flight + abandoned + drops counted - (1 if enqueued but uncounted), so sent_ok <= received + 1; every drop is reported, counted, or its report was dropped too |
| Pipeline.CountJobsIs | firmware/components/error_control/src/error_control.c:301-305 | the confirmed and the abandoned jobs counted there are the numbers of jobs with that outcome |
| Pipeline.CountDropsIs | firmware/components/error_control/src/error_control.c:215-220 | the drops being reported are the queue-full errors in the error queue |
| Pipeline.CmdDiffIsExact | firmware/components/error_control/src/error_control.c:118-121 | the wrapping 32-bit difference is the true one exactly while that fits an int32_t |
| Pipeline.BandsOfRuns | firmware/components/error_control/src/error_control.c:118-164 | in every run that has lost at most MAX_LOST commands, NORMAL implies diff <= 5 + p, DEGRADED 2 - u <= diff <= 9 + p, SUSPENDED diff >= 3 - u, for p and u evaluations due |
| Pipeline.NoDirectSuspension | firmware/components/error_control/src/error_control.c:125-136 | no step of any run that has lost at most MAX_LOST commands goes from NORMAL to SUSPENDED |
| Pipeline.DirectSuspension | firmware/components/error_control/src/error_control.c:125-136 | in every run a step goes from NORMAL to SUSPENDED exactly at an evaluation that finds 10 <= d < 2^31, for d the outstanding commands modulo 2^32 |
| Pipeline.RestorationIsEarned | firmware/components/error_control/src/error_control.c:138-157 | with at most MAX_LOST commands lost, a step improves the camera state exactly when it evaluates a degraded camera with queued + in flight + lost <= 2 (+ 1 uncounted) |
| Pipeline.NeverRestoredAfterFourLost | firmware/components/error_control/src/error_control.c:118-164 | once four commands have been lost no later state of the run is better, until more than MAX_LOST have been |
| Pipeline.CameraMoves | firmware/components/error_control/src/error_control.c:118-164 | in every run, however many commands it lost, with d = queued + in flight + lost - uncounted modulo 2^32: the camera state improves exactly at an evaluation that finds it degraded and d <= 2 or d >= 2^31, and worsens exactly at one that finds 6 <= d (NORMAL) or 10 <= d (DEGRADED) below 2^31 |
| Pipeline.CameraTable | firmware/components/error_control/src/error_control.c:118-164 | the next camera state of every run, state by state and in numbers of d |
| Pipeline.WrappingRefinesNaturals | firmware/components/error_control/src/error_control.c:120 | a run whose difference of counts fits int32_t wherever it is evaluated is, state for state, the run with counters that never wrap |
| Pipeline.FewLostFits | firmware/components/error_control/src/error_control.c:118-121 | it fits in every run that has lost at most MAX_LOST commands |
| PipelineRuns.AnyNumberLost | firmware/components/error_control/src/error_control.c:215-220 | every number of lost commands is the one of some run |
| PipelineRuns.RestoredByWrap | firmware/components/error_control/src/error_control.c:120-157 | MAX_LOST is tight: a run that lost one command more and restores a suspended camera by the wrapped difference |
| PipelineRuns.SuspendedFromNormal | firmware/components/error_control/src/error_control.c:120-136 | a run that lost two commands more than MAX_LOST and goes from NORMAL straight to SUSPENDED |
| PipelineRuns.RestoredAfterThreeLost | firmware/components/error_control/src/error_control.c:138-157 | four is tight: a run that lost three commands and restores a suspended camera, one command being enqueued, confirmed and not counted yet |
| Pipeline.UartTrace | firmware/components/uart_task/src/uart_task.c:114-163 | in every run the UART frames without STOP are the jobs' frames: jobs are the enqueued commands in order, finished ones written one to four times with one outcome, abandoned only after four; no more jobs than READY frames |
| Pipeline.CommandsAt | firmware/components/uart_task/src/uart_task.c:114-118 | the commands of the jobs are those of the jobs, one each, by position |
| Pipeline.FramesAt | firmware/components/uart_task/src/uart_task.c:120-134 | the frames of job k stand after those of the jobs before it, as many as it had attempts, each the frame of its command |
| Pipeline.StopsTakenOut | firmware/components/uart_task/src/uart_task.c:53-57 | the trace without STOP is the frames on the wire with every STOP taken out |
| Pipeline.ErrorsReachTheQueue | firmware/components/uart_task/src/uart_task.c:162-195 | every error of the three tasks, NO_ACK, parse, disconnect and response errors included, is appended to an error queue of less than ten and lost on a full one; only the error task takes one off |
| RoverTasks.Rover.Interfere | firmware/components/error_control/src/error_control.c:237-250 | what other tasks do keeps a task's own progress, its own steps and the head of its queue, and is a run of Pipeline steps, each possible when it is taken |
| RoverTasks.Rover.CmdReceived | firmware/components/error_control/src/error_control.c:295-299 | the steps of the WebSocket handler are WsCount and then WsEvaluate, with other tasks in between |
| RoverTasks.Rover.CmdSentOk | firmware/components/error_control/src/error_control.c:301-305 | the steps of the UART task are UartCount and then UartEvaluate; the job in flight is confirmed and one more command is |
| RoverTasks.Rover.ErrorControlTask | firmware/components/error_control/src/error_control.c:237-250 | takes one error off the queue and, exactly if it is a queue-full drop, counts it and evaluates; any other changes nothing more |
| RoverTasks.Rover.CountDrop | firmware/components/error_control/src/error_control.c:215-220 | the steps of the error task are ErrCount, which counts the drop as received, and then ErrEvaluate |
| RoverTasks.Rover.ReadyHandler | firmware/components/uart_task/src/uart_task.c:107-164 | takes the head of the queue if there is one, writes it until the first ACK among the replies or four times, and ends the job accordingly; its steps are the take, a write and a read for each attempt, and count and evaluation or else the abandonment |
| RoverTasks.AttemptsMean | firmware/components/uart_task/src/uart_task.c:125-151 | in positions: the job is confirmed exactly if some reply has code 0, and then the first such reply ends it; otherwise it is tried four times |
| RoverTasks.Rover.TaskUart | firmware/components/uart_task/src/uart_task.c:67-103 | only a READY frame, code 1, starts a job, at most one, with the steps of ready_handler; codes 3 and 4 and any other accepted frame are posted as their errors, a rejected one is ignored |
| RoverTasks.Rover.WebsocketData | firmware/components/web_socket/src/web_socket.c:105-150 | a well-formed message is enqueued or dropped, once, as a command with the message's numbers modulo 2^32, 2^16 and 2^8, whose frame decodes to them when they are in range; the cache lookup always succeeds; any other message is posted as the parse or memory error it is, if the error queue has room, and changes nothing more |
| RoverTasks.Rover.SendCommand | firmware/components/web_socket/src/web_socket.c:140-147 | the command is enqueued, with the steps WsEnqueue, WsCount and WsEvaluate, or dropped, with the steps WsTimeout and WsPostDrop |
| RoverTasks.Rover.QueueSend | firmware/components/web_socket/src/web_socket.c:140 | enqueues exactly when the queue is not full, as the step WsEnqueue, and else gives the command up, as WsTimeout |
| RoverTasks.DropNeedsFullQueue | firmware/components/web_socket/src/web_socket.c:140-147 | a command is dropped only in a state in which the queue is full |
| RoverTasks.Rover.WebsocketDisconnected | firmware/components/web_socket/src/web_socket.c:151-156 | the steps are WsDisconnect, which posts an error, and WsStop; STOP is the last frame written |
| DnsResponder.ReplyIsCorrect | firmware/components/wifi_provisioning/src/dns_server.c:76-93 | every query of at most 112 bytes made of a header and one or more written-out questions is answered with the same id and questions, QR set, RCODE 0, and one A record, TTL 60, 192.168.4.1, whose compressed name resolves to the name asked first |
| DnsResponder.ReplyIsCorrectExactly | firmware/components/wifi_provisioning/src/dns_server.c:76-93 | for a query of a header, questions and anything after them, at most 112 bytes: the response reads as that message if and only if nothing comes after the questions |
| DnsResponder.ReplyMatchesQuery | firmware/components/wifi_provisioning/src/dns_server.c:76-93 | read by one reader, the response to a query without records has the query's id and questions, is marked as a response, and answers the name asked first |
| DnsResponder.Respond | firmware/components/wifi_provisioning/src/dns_server.c:76-95 | the in-place rewrite leaves the specified buffer, answers exactly the datagrams of 13 to 112 bytes with QR clear, and touches nothing beyond the appended record |
| DnsResponder.DnsTask | firmware/components/wifi_provisioning/src/dns_server.c:65-96 | as many responses are sent as datagrams have 13 to 112 bytes and QR clear, each for its datagram and in order |
| DnsResponder.ReplyIff | firmware/components/wifi_provisioning/src/dns_server.c:71-93 | a datagram is answered exactly if it has 13 to 112 bytes and QR clear, also when recvfrom cuts it at 127, with 16 bytes more |

## Left out

- WiFi manager, NVS storage, HTTP portal, sensor setup, `camera_adjust_quality`, frame rate: driver calls with little logic.
- `error_control_set_camera_state`: it has no caller, and a manual set is not a step of the pipeline.
- `build_error_json`, log levels and `from_error_queue`: reporting to the web does not feed back into the counters.
- Time: timeouts are arbitrary failures, and only the upload backoff is added up.
- CommandCache.CmdBuffer.Push: requires a nonzero id, because for id 0 the index is 255, past the ten slots (`IndexIsSlot`).
- CommandCache.CmdBuffer.ModifyCmd: requires that the new command carries the id it is stored under, which `modify_cmd` does not check; it has no caller in the firmware.
- CommandCache.CmdBuffer.ParseJson: a message whose id is 0 as a uint16_t would reach `push`; it is outside the precondition.
- RoverTasks.Rover.WebsocketData: the same precondition, since the handler has no check of its own.
- UartCodec.FirstOverflows: what `sscanf` makes of a number beyond int is undefined in C; the model reads it whole.
- RoverTasks.ParseRead: a read that fails with -1 is not modelled; the source writes `data[-1]` then.
- DnsResponder.ReplyIsCorrect: does not cover question names that use compression.
- CamTask.Transport.HttpWriteExact: the network never takes 0 bytes.
- Preemption inside `evaluate_camera_state`, inside a UART write and inside an increment.
