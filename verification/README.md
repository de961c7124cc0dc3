# V4L2 capture pipeline: a verified model

This project models the camera-to-network pipeline of `v4l2_capture` and proves what its parts, and the
parts together, guarantee: a V4L2 camera feeds a producer thread, a drop-oldest ring, a consumer thread,
a second drop-oldest ring and a TCP sender thread; the bytes travel to a receiver program that cuts them
back into frames. `dafny verify dfyconfig.toml` checks everything.

## What is proved

The three threads (`Pipeline.dfy`, `Drops.dfy`, `Shutdown.dfy`, `Schedules.dfy`). `run_pipeline` is a step relation
with a program counter per thread; each locked ring operation, atomic access and counter update is a step,
and any interleaving is a run. One invariant, kept by every step, gives the results for all runs: a stop is
never silent; a normal return means that everything was captured, both rings are drained and the counters
balance exactly; the counters balance in every reachable state with the frames in flight; sent frames are
usable captured frames in capture order, each at most once; the socket carries whole frames and at most one
broken one, at its end; after a stop at most one more frame is pushed, popped or completed per thread, and
consumer and sender have a bounded number of steps left. Normal runs are constructed for every configuration,
so the results about normal returns speak of runs that exist, and with them the capacities under which the
rings never drop a frame are determined exactly.

The wire (`TcpSend.dfy`, `SendPaths.dfy`, `TcpReceiver.dfy`, `Delivery.dfy`, `EndToEnd.dfy`). Partial sends, EINTR,
EAGAIN, timeouts, cancellations and recv chunking are inputs. The sending loop is proved to be a path through the
sender's program points. Every outcome of a send or a read has
its cause in the answers of kernel and clock, and both make progress: an undisturbed send succeeds, and enough recv
calls end a session. The receiver counts a prefix of the sent frames, equal in header and payload, also when an
exception ends it or it still waits; of a completely delivered stream its session is given exactly, for every frame
limit and whatever headers the stream holds. Its counters and exit code are functions of the streams it was given.
The last module joins the threads, the socket and the receiver.

Codec, checksum, fixture (`FrameProtocol.dfy`, `Crc32.dfy`, `Folds.dfy`, `Fixture.dfy`). The header codec is a
bijection. The masked bit loop of `compute_crc32` equals polynomial division of the bit stream and the
table-driven algorithm of section 8 of RFC 1952, and no burst of up to 32 bits goes unnoticed, in a payload of
any length. The fixture verifier accepts exactly the fixture writer's output.

Camera and recovery (`Camera.dfy`, `CaptureRecovery.dfy`, `ProducerLoop.dfy`). The kernel's preconditions are the
ownership rules: no buffer is queued twice, nothing is unmapped or closed twice. Over whole runs the camera is
open, streaming and fully queued at every capture, and in the end nothing is left open or mapped. Failures have
causes in the kernel's answers. The invalid-frame policy is described by a closed formula over the history of its
calls; the producer feeds it the usability of the captured frames and obeys it.

Ring, latency, colours (`RingBuffers.dfy`, `Latency.dfy`, `Yuyv.dfy`). The array-based ring refines a queue value
and a history of pushes. The latency summary is given by its samples, ordered, bounded and independent of their order.
The two RGB conversions are given byte by byte and compared exactly.

## Where promises and code differ

- A frame that `is_frame_usable` lets through is not always one that the receiver accepts:
  `Frames.UsableButRejected` shows a YUYV frame that is too long, `Frames.AcceptedIffFits` gives the exact condition.
- The two RGB conversions differ on dark luma: `Yuyv.ConvertersDiffer` shows a pixel,
  `Yuyv.PixelsAgreeIff` lists exactly the pixels on which they agree.
- `scripts/v4l2_frame_quality_test.sh:114` expects every queued frame to be sent. `Drops.QueuedButNotSent` is a run that
  returns normally with two frames queued and one sent; `Drops.SendsAllQueuedIff` shows that the expectation holds of
  every normal return if and only if the TCP queue capacity is at least the frame count.
- `read_exact` reports a clean close and a truncated header alike, and the session counts as completed:
  `Delivery.CutHeaderCompletes` shows such a stream, `Delivery.CutLooksCleanIff` says exactly which cuts the receiver
  cannot tell from a clean close.
- A frame whose bytes are all on the socket can still be counted as failed, even after it was counted as sent, when
  recording its latency or logging throws (src/main.cpp:596-609). `Pipeline.ConservationAfterJoins` has a term for it,
  and `Schedules.CountedTwiceRunExists` shows such runs.

## Conventions

- Memory is sequentially consistent; the stop flag is read with relaxed order at `src/tcp_send.cpp:17`.
- Environment scripts (`SendTick`, `RecvEvent`, `AcceptEvent`) are finite sequences. When a script ends, the call is
  still in progress and says so; every finite part of every run is covered.
- In the consumer an exception may come between any two effects; in the sender also after a completed send.
- Timed waits on condition variables are steps that change nothing but the program counter.
- Counters are unbounded integers, bytes and header fields are bounded ones. Reason strings are enumerations.

## Model

| member | source | states |
|---|---|---|
| `Pipeline.RunHasInv` | src/main.cpp:581-946 | in every state of every interleaving: flags mean what the threads take them to mean, counters balance with the frames in flight, order, screening and socket framing hold |
| `Pipeline.NormalReturnIsComplete` | src/main.cpp:669-1034 | a normal return means no stop, captured = frame_count, both rings empty, captured = consumed + dropped, invalid = the unusable consumed frames, the first save_limit of the others saved, consumed = invalid + queued, queued = sent + dropped, no cancellation or timeout |
| `Pipeline.ConservationAfterJoins` | src/main.cpp:596-644 | after the joins every captured and every queued frame is accounted for; a consumer exception loses at most one from the count; errors, timeouts and cancellations count exactly how the last send ended, and only a frame that failed after it was counted as sent is counted twice |
| `Pipeline.ConsumerKeepsScreen` | src/main.cpp:685-702 | every consumer step keeps: exactly the unusable consumed frames are invalid, and exactly the first save_limit others are saved |
| `Pipeline.SenderKeepsFailure` | src/main.cpp:610-643 | every sender step keeps: each error counter stands for the one failure it counts |
| `Pipeline.StopIsReported` | src/main.cpp:610-660 | whenever stop_requested is set, run_pipeline will throw |
| `Pipeline.SentFramesAreCapturedInOrder` | src/main.cpp:588-603 | the frames on the socket, the counted ones first and at most one more, are captured frames, in capture order, each at most once, all usable |
| `Pipeline.SenderKeepsFraming` | src/main.cpp:588-651 | every sender step keeps whole frames in order on the socket with at most one broken frame, last |
| `Pipeline.ConsumerKeepsOrder` | src/main.cpp:666-735 | popping, screening, queueing and dropping never reorder or duplicate |
| `Pipeline.ProducerKeepsOrder` | src/main.cpp:814-847 | a push appends the newest frame and drops only the oldest |
| `Shutdown.AtMostOneMore` | src/main.cpp:585-666 | after a stop, for the rest of the run: at most one more push, one more pop per consuming thread, one more completed send |
| `Shutdown.ConsumerRankFalls` | src/main.cpp:666-745 | after a stop every consumer step lowers a rank |
| `Shutdown.SenderRankFalls` | src/main.cpp:585-660 | after a stop and with the consumer done every sender step lowers a rank, the timed wait included |
| `Shutdown.ShutdownIsBounded` | src/main.cpp:581-746 | in any continuation of a stopped run, consumer steps and the sender steps behind a finished consumer number at most 38 together |
| `Schedules.NormalRunExists` | src/main.cpp:453-1034 | for every configuration with TCP and every usable, sendable frame there is a normal return with all frames queued and as many sent as the TCP ring holds |
| `Schedules.LateConsumerRunExists` | src/main.cpp:453-1034 | and one that consumes only as many frames as the capture ring holds |
| `Schedules.CountedTwiceRunExists` | src/main.cpp:602-609 | for every configuration with TCP there is a failing run in which a frame is counted as sent and as failed, so that queued is one less than its places |
| `Drops.RunIsSpacious` | include/ring_buffer.hpp:78-91 | in every run a ring with room for frame_count frames never drops one |
| `Drops.SendsAllQueuedIff` | scripts/v4l2_frame_quality_test.sh:114-115 | queued = sent on every normal return if and only if the TCP queue capacity is at least frame_count |
| `Drops.ConsumesAllCapturedIff` | src/main.cpp:958-961 | captured = consumed on every normal return if and only if the ring capacity is at least frame_count |
| `Drops.QueuedButNotSent` | scripts/v4l2_frame_quality_test.sh:114-115 | a normal return with two frames queued and one sent |
| `EndToEnd.ReceivedFramesWereCaptured` | src/tcp_receiver.cpp:281-392 | behind any state of any run, for any delivered bytes, chunking, recv error or failing save, the receiver code has counted a prefix of the sent frames, which are usable captured frames in capture order; with enough recv calls and no failure it has ended with everything the bytes hold |
| `EndToEnd.ArrivedFramesWereCaptured` | src/main.cpp:588-651 | the frames in any delivered part of the socket's bytes are a prefix of the sent frames, which are usable captured frames in capture order |
| `EndToEnd.NormalRunIsDelivered` | src/main.cpp:1019-1034 | a normal run is received up to the first unacceptable header and the frame limit; completely, up to the limit, if its usable frames fit the receiver; the number sent is frame_count minus drops and invalid frames |
| `TcpSend.RemainingWaitMs` | src/tcp_send.cpp:24-43 | zero exactly at the deadline, never above the poll slice, never past the deadline; below the slice it is all the whole milliseconds left |
| `TcpSend.SendAllUntil` | src/tcp_send.cpp:61-164 | the socket gets a prefix of the data, all of it exactly on success; every turn before the last passed all its checks, and the last one has the cause of the outcome; an undisturbed call sends exactly what send takes and succeeds when that is everything |
| `TcpSend.SendWhileAny` | src/tcp_send.cpp:84-163 | the loop computes SendLoop and puts exactly the sent bytes on the socket |
| `TcpSend.LoopCauses` | src/tcp_send.cpp:84-163 | over any script, cancellation, timeout and error each have their cause in the last tick used, in the order of the checks, and no turn goes on after a failed check |
| `TcpSend.CalmLoop` | src/tcp_send.cpp:84-163 | completeness: without stop, deadline and failure the loop sends exactly what send takes and ends when that is everything |
| `TcpSend.CalmFrame` | src/main.cpp:148-197 | an undisturbed frame with a send call for every byte is sent |
| `SendPaths.SendIsPath` | src/main.cpp:148-197 | for any script, sending a frame is a path through the sender's program points that ends in the matching one, with exactly the sent bytes on the socket, and that sees a stop only if a tick did |
| `TcpSend.SendFrame` | src/main.cpp:148-197 | the socket gets a prefix of header and payload, all of it exactly on success; an unsendable frame sends nothing |
| `TcpSend.SendFrames` | src/main.cpp:588-651 | frames go out in order, and the first failure is the last thing on the socket; undisturbed, all go out |
| `TcpReceiver.ReadExact` | src/tcp_receiver.cpp:51-75 | the buffer gets the next bytes of the stream whatever the chunking; the read goes on exactly until it is complete, the close is seen or a call fails; with enough calls it is complete exactly if the stream is long enough, else closed |
| `TcpReceiver.ReadProgress` | src/tcp_receiver.cpp:55-74 | every call takes a byte or ends the read, so the number of calls a read can wait is bounded by the bytes there are |
| `TcpReceiver.ReadFrame` | src/tcp_receiver.cpp:281-358 | one turn takes the frame at the head of the stream or stops for the reason the stream gives; no buffer exceeds the limit |
| `TcpReceiver.TakenFrameIsSound` | src/tcp_receiver.cpp:311-358 | a frame that is taken is well formed and has the size and checksum its header promises |
| `TcpReceiver.ParsedFramesAreSound` | src/tcp_receiver.cpp:281-392 | every frame of a session is sound, and the frame limit is kept |
| `TcpReceiver.Receiver.CountFrame` | src/tcp_receiver.cpp:360-376 | received = latency samples + clock errors, each sample is the clock difference in microseconds, received_bytes is the sum of payload sizes |
| `TcpReceiver.Receiver.FrameLoop` | src/tcp_receiver.cpp:281-392 | however it is left, it has counted a prefix of the frames that the stream holds; a finished session has counted all of them and ends for the stream's reason; an exception and a wait have their causes, and with enough recv calls and no failure the session ends |
| `TcpReceiver.Receiver.ServeClient` | src/tcp_receiver.cpp:259-400 | the same for a whole session, with its end recorded exactly when it finished |
| `TcpReceiver.Receiver.CloseSession` | src/tcp_receiver.cpp:284-400 | each end of a session changes exactly its counters |
| `TcpReceiver.Receiver.Run` | src/tcp_receiver.cpp:254-454 | at any exit, or still waiting, a prefix of the described sessions and frames; without an exception exactly those; exit code 3 exactly for a header rejection, 2 exactly for a CRC rejection, 1 only after a failed accept, recv or save; among clients that deliver everything it waits only for another one |
| `TcpReceiver.ServiceLimits` | src/tcp_receiver.cpp:254-255 | session and frame limits are kept |
| `TcpReceiver.ServiceStops` | src/tcp_receiver.cpp:254-408 | serving stops only for want of clients, at the session or frame limit, or after a protocol error |
| `TcpReceiver.FatalSessionIsLast` | src/tcp_receiver.cpp:406-408 | at most one session is rejected, and it is the last |
| `TcpReceiver.EndsPartition` | src/tcp_receiver.cpp:397-399 | every served session ends in exactly one way, so completed sessions never exceed accepted ones |
| `Delivery.ReceivedIsPrefix` | src/tcp_receiver.cpp:281-392 | for any delivered prefix, the received frames are a prefix of the completely sent ones, equal in header and payload; a broken frame is never received |
| `Delivery.SessionIsExact` | src/tcp_receiver.cpp:281-392 | a completely delivered stream yields the frames before the first unacceptable header, up to the frame limit, and ends at the limit, at that header, or as the broken part makes it end |
| `Delivery.AcceptableIsFirst` | include/frame_protocol.hpp:202-283 | the count of acceptable frames stops at the first header that validation rejects |
| `Delivery.CutLooksCleanIff` | src/tcp_receiver.cpp:58-60 | a stream cut inside a frame gives the same session as a clean close exactly if the cut is in the header or is never reached |
| `Delivery.CutHeaderCompletes` | src/tcp_receiver.cpp:284-291 | a stream cut after 43 bytes of a header and an empty one are the same session |
| `Delivery.CorruptedFrameRejected` | src/tcp_sender.cpp:347-365 | the test sender's corrupted frame is always rejected by its checksum |
| `Delivery.Transmit` | src/tcp_receiver.cpp:259-392 | sender code, any cut, chunking, recv error or failing save, receiver code: the counted frames are a prefix of the sent ones, whether the session ended, threw or waits; if nothing stands in the way, all are sent and the session is the expected one |
| `Frames.UsableIff` | src/main.cpp:278-313 | which frames are usable, in terms of flags, data, size and format, and which reason is given first |
| `Frames.HeaderOnWire` | src/main.cpp:148-197 | the bytes on the wire for a frame: preamble, sequence number as frame id, timestamp, size, format, payload size, the RFC 1952 checksum, then the data |
| `Frames.UsableButRejected` | src/main.cpp:287-313 | a usable frame can be unacceptable to the receiver |
| `Frames.AcceptedIffFits` | src/main.cpp:278-313 | exactly when a usable frame is acceptable |
| `FrameProtocol.WriteLe` | include/frame_protocol.hpp:46-73 | writes the little-endian bytes at the offset and nothing else |
| `FrameProtocol.ReadLe` | include/frame_protocol.hpp:75-105 | reads the number the bytes denote |
| `FrameProtocol.SerializeHeader` | include/frame_protocol.hpp:107-120 | the array holds the header's encoding |
| `FrameProtocol.DeserializeHeader` | include/frame_protocol.hpp:122-162 | the result encodes to exactly the input, or names the error |
| `FrameProtocol.FieldLayout` | include/frame_protocol.hpp:107-120 | the ten fields partition the 44 bytes |
| `FrameProtocol.DecodeEncode` | include/frame_protocol.hpp:107-154 | decoding an encoded header gives it back |
| `FrameProtocol.EncodeDecode` | include/frame_protocol.hpp:107-154 | encoding a decoded byte string gives it back |
| `FrameProtocol.ValidateIff` | include/frame_protocol.hpp:202-283 | validation accepts exactly the well-formed headers, and the overflow branch is dead |
| `FrameProtocol.RejectionReasons` | include/frame_protocol.hpp:202-283 | the reason given is the first check that fails |
| `Crc32.ComputeCrc32` | include/frame_protocol.hpp:164-177 | the loops compute the checksum function |
| `Crc32.WidenIsCast` | include/frame_protocol.hpp:168-169 | the value added to the register is the byte itself |
| `Crc32.ShiftLinear` | include/frame_protocol.hpp:170-173 | one masked shift is linear over exclusive or |
| `Crc32.RegisterIsSerial` | include/frame_protocol.hpp:164-177 | the register is the polynomial division of the bit stream |
| `Crc32.RegisterIsTableDriven` | include/frame_protocol.hpp:164-177 | the masked bit loop equals the table-driven algorithm of section 8 of RFC 1952 |
| `Crc32.ChecksumIsRfc1952` | include/frame_protocol.hpp:164-177 | the checksum of every byte string is the one of section 8 of RFC 1952, with its initial value and final complement |
| `Crc32.RegisterConcat` | include/frame_protocol.hpp:164-177 | the running register composes over concatenation |
| `Crc32.BurstDetected` | include/frame_protocol.hpp:164-177 | payloads that differ only within 32 consecutive bits have different checksums |
| `Crc32.FourByteWindowDetected` | include/frame_protocol.hpp:164-177 | payloads that differ only within four consecutive bytes have different checksums |
| `Crc32.CorruptionDetected` | src/tcp_sender.cpp:347-351 | flipping the lowest bit of the middle byte changes the checksum |
| `Fixture.MakePayload` | src/protocol_fixture.cpp:80-102 | the loops produce the per-byte formula |
| `Fixture.PayloadPixels` | src/protocol_fixture.cpp:80-102 | the four bytes of every pixel pair as residues modulo 256, for every frame id |
| `Fixture.WriteFixture` | src/protocol_fixture.cpp:157-194 | the writer's file |
| `Fixture.VerifyFixture` | src/protocol_fixture.cpp:214-307 | accepts a byte string if and only if it is the writer's file for that many frames |
| `Fixture.HeaderIsValid` | src/protocol_fixture.cpp:104-106 | within the tool's frame limit every written header is valid |
| `Fixture.HeaderIs` | src/protocol_fixture.cpp:104-106 | the header of every frame with the tool's numbers |
| `Fixture.FilesDiffer` | src/protocol_fixture.cpp:302-307 | files for different counts differ, the shorter being a truncation of the longer |
| `RingBuffers.RingBuffer.constructor` | include/ring_buffer.hpp:12-17 | an empty ring |
| `RingBuffers.RingBuffer.Create` | include/ring_buffer.hpp:12-17 | a zero capacity, and only that, is rejected |
| `RingBuffers.RingBuffer.Push` | include/ring_buffer.hpp:78-91 | appends, drops exactly the oldest item when full, extends the history |
| `RingBuffers.RingBuffer.TryPopOldest` | include/ring_buffer.hpp:32-43 | removes the oldest held item, one of the last capacity pushes; nothing on an empty ring |
| `RingBuffers.RingBuffer.Snapshot` | include/ring_buffer.hpp:45-57 | the held items, oldest first |
| `RingBuffers.RingBuffer.Empty` | include/ring_buffer.hpp:73-76 | empty exactly when nothing is held |
| `RingBuffers.RingBuffer.WriteIndexIsModulo` | include/ring_buffer.hpp:80-91 | the write index is read index plus size modulo capacity |
| `RingBuffers.HistoryHolds` | include/ring_buffer.hpp:32-91 | after any operations the ring holds exactly the latest pushes, and pushes = pops + dropped + size |
| `CaptureRecovery.CaptureRecoveryController.ShouldReinitialize` | include/capture_recovery.hpp:22-35 | which error kinds trigger a rebuild, and when |
| `CaptureRecovery.CaptureRecoveryController.BeginRecoveryAttempt` | include/capture_recovery.hpp:37-43 | at most max attempts between resets |
| `CaptureRecovery.CaptureRecoveryController.OnSuccess` | include/capture_recovery.hpp:45-53 | both counters return to zero |
| `CaptureRecovery.InvalidFrameRecoveryController.Observe` | include/capture_recovery.hpp:99-129 | the decision and every counter are the closed formulas over the call history; the peak never exceeds the threshold |
| `CaptureRecovery.InvalidFrameRecoveryController.OnRecoverySuccess` | include/capture_recovery.hpp:131-140 | a recovery cuts the streak, arms the cooldown and counts only its own kind |
| `CaptureRecovery.RecoverIsRateLimited` | include/capture_recovery.hpp:99-129 | Recover follows threshold consecutive invalid observations, at least max(threshold, cooldown) observations after any recovery |
| `CaptureRecovery.RecoverIff` | include/capture_recovery.hpp:99-129 | exactly when an observation leads to a recovery or is suppressed by the cooldown, in terms of the calls themselves: invalid frames in a row, distance of every recovery, number of own recoveries |
| `CaptureRecovery.LongestMeaning` | include/capture_recovery.hpp:109-111 | the peak is the longest stretch that any part of the history ends with |
| `CaptureRecovery.SinceMeaning` | include/capture_recovery.hpp:131-140 | the distance to the latest recovery of either kind |
| `CaptureRecovery.DecisionsMatchStretches` | include/capture_recovery.hpp:99-129 | decisions number the sum of floor(length / threshold) over uncut invalid stretches |
| `CaptureRecovery.BudgetHolds` | include/capture_recovery.hpp:124-135 | if recoveries only follow Recover decisions, they never exceed the budget |
| `Camera.CameraDevice.ReleaseMmapBuffers` | src/camera_device.cpp:118-131 | every live mapping is unmapped, once |
| `Camera.CameraDevice.CloseDevice` | src/camera_device.cpp:111-116 | an open descriptor is closed, once; the camera is consistent afterwards exactly if it was not streaming |
| `Camera.CameraDevice.Reset` | src/camera_device.cpp:51-76 | whatever state the camera was in, nothing is left open or mapped |
| `Camera.CameraDevice.OpenDevice` | src/camera_device.cpp:133-143 | a new descriptor or an error; only a closed camera stays leak-free |
| `Camera.CameraDevice.InitMmapBuffers` | src/camera_device.cpp:451-530 | all buffers mapped and queued, or an error, which has a cause, with everything still owned |
| `Camera.CameraDevice.RequeueBuffer` | src/camera_device.cpp:532-548 | queues exactly the buffer, or fails and queues nothing |
| `Camera.CameraDevice.StartStreaming` | src/camera_device.cpp:565-588 | streaming with buffers on success |
| `Camera.CameraDevice.StopStreaming` | src/camera_device.cpp:590-604 | not streaming afterwards, and the stream is off unless the driver refused |
| `Camera.CameraDevice.Initialize` | src/main.cpp:416-434 | a ready camera with the agreed format, or an error, which has a cause, with everything still owned |
| `Camera.CameraDevice.DequeueFrame` | src/camera_device.cpp:696-808 | on success exactly one buffer left the queue; timeouts and EAGAIN take nothing; each error kind exactly for its answers of poll and driver |
| `Camera.CameraDevice.CaptureFrameCopy` | src/camera_device.cpp:965-1003 | a ready camera is ready again after a frame, untouched after a timeout or EAGAIN; the frame has the copied bytes and the driver's index, size, sequence number and flags; errors have causes |
| `Camera.DequeuedBufferGuard.RequeueOrThrow` | src/camera_device.cpp:102-109 | gives the buffer up before queueing it |
| `Camera.DequeuedBufferGuard.Destroy` | src/camera_device.cpp:86-90 | queues the buffer only if it is still owned |
| `ProducerLoop.Producer.Attempt` | src/main.cpp:781-808 | one rebuild attempt counts as one success or one failure; success leaves a ready camera, failure has a cause |
| `ProducerLoop.Producer.Rebuild` | src/main.cpp:760-811 | starts with a fresh budget, makes at most max attempts, attempts = successes + failures + at most one interrupted |
| `ProducerLoop.Producer.HandleFrame` | src/main.cpp:816-897 | a captured frame is pushed and counted; the policy observes its usability, and a rebuild starts exactly when it then decides to recover; recoveries stay within the budget |
| `ProducerLoop.Producer.HandleError` | src/main.cpp:900-936 | a rebuild starts exactly for the errors and timeout counts that need one; after it or a tolerated error the camera is ready, or the loop is about to stop |
| `ProducerLoop.Producer.Run` | src/main.cpp:813-946 | the camera is ready at every capture call, all recovery budgets hold over the whole run, every captured frame is pushed, the policy sees exactly the usability of these frames and every decision to recover is obeyed; the thread gives up only for a cause |
| `ProducerLoop.CameraLifetime` | src/main.cpp:1071-1128 | over the whole program every descriptor and mapping is released |
| `Latency.LatencyStats.AddSampleUs` | include/latency_stats.hpp:24-31 | keeps exactly the finite, non-negative samples |
| `Latency.LatencyStats.Snapshot` | include/latency_stats.hpp:33-66 | the loops compute the summary of the sorted samples |
| `Latency.SortedUnique` | include/latency_stats.hpp:46-46 | any correct sort gives the same sequence |
| `Latency.PercentileMonotone` | include/latency_stats.hpp:69-84 | percentiles grow with the quantile and stay between the extremes |
| `Latency.PercentileInterpolates` | include/latency_stats.hpp:69-84 | between neighbouring ranks the percentile is the linear interpolation, at a rank the sample itself |
| `Latency.SummaryInterpolates` | include/latency_stats.hpp:52-54 | the three percentiles are those of 50, 95 and 99 percent of the sorted samples |
| `Latency.SummaryMeans` | include/latency_stats.hpp:42-63 | count, least and greatest sample, mean, and variance as mean square less square mean, of the samples themselves |
| `Latency.SummaryIsOrdered` | include/latency_stats.hpp:48-63 | min <= p50 <= p95 <= p99 <= max, mean in range, variance at most (max - mean)(mean - min) |
| `Latency.SummaryIgnoresOrder` | include/latency_stats.hpp:33-66 | the order of the samples does not matter |
| `Yuyv.ConvertYuyvToRgb8` | ros2_ws/src/v4l2_ros2_adapter/include/v4l2_ros2_adapter/yuyv_conversion.hpp:20-69 | exactly the two rejections, or the image whose every red, green and blue byte is the rounded and clamped formula over the payload's bytes |
| `Yuyv.ConvertYuyvToMono8` | ros2_ws/src/v4l2_ros2_adapter/include/v4l2_ros2_adapter/yuyv_conversion.hpp:72-109 | the two rejections, or the luma bytes in order |
| `Yuyv.FrameYuyvToRgb` | src/main.cpp:218-264 | every red, green and blue byte is the rounded and clamped formula over the image's bytes; a last odd pixel stays black |
| `Yuyv.RgbUnique` | src/main.cpp:237-251 | the byte formulas describe one image only |
| `Yuyv.NeutralIsGrey` | src/main.cpp:237-251 | neutral chroma gives grey |
| `Yuyv.AcceptedFramesConvert` | include/frame_protocol.hpp:258-279 | accepted YUYV frames meet the converters' checks |
| `Yuyv.PixelsAgreeIff` | src/main.cpp:237-251 | exactly the pixels on which the two conversions agree |
| `Yuyv.ConvertersAgreeIff` | src/main.cpp:218-264 | the images are equal if and only if every pixel agrees, in particular for luma of at least 16 |
| `Yuyv.ConvertersDiffer` | src/main.cpp:237-251 | a pixel on which they differ |

## Left out

- Connecting with retries, configuration and command-line parsing, logging, JSON statistics, file saving: input and output or straight-line checks. A failing save is an exception of the consumer or of the receiver.
- The one-shot capture modes, format enumeration and printing: outside the pipeline, they would only add easy members.
- The ROS nodes, launch files and throughput tools. `TcpDiagnosticsNode::handle_client` reads the header as a padded host structure, so the framing results do not describe it.
- Sockets, ioctl, mmap and poll: only their outcomes, as inputs or nondeterministic choices.
- Liveness of waiting: timed waits are steps, and before a stop no bound on their number is claimed. The producer's termination is not claimed either, since every successful capture resets its retry budget.
- Byte counters (consumed_bytes, tcp_sent_bytes): they would only add easy members.
- Overflow of counters: they are unbounded in the model.
- The two send calls of one frame appear in the step relation as one loop over header and payload; `TcpSend.SendFrame` has them apart, and `SendPaths.SendIsPath` relates the two.
- Floating-point rounding and the square root: latencies are reals and the jitter is given by its square.
- `Camera.CameraDevice.Initialize` merges query_capability and set_format into one step that may fail and sets any format.
