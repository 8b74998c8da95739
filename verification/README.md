# Verification of the Connect host: OTA server, command serializer, host transport, utilities

This project models, in Dafny, the path an OTA image takes through the Connect host application:
from the unicast bootloader server down to the command bytes exchanged with the NCP, and back up to
the application's callbacks. The protocols have no public specification, so the C code is the
specification; where a header promises something else, the code is followed and the difference is
stated.

## The parts

| files | what they model |
|---|---|
| `ByteUtilities`, `BitPrefix` | byte order, in-place writes, bit-prefix matching and copying |
| `OtaProtocol` | request and response frames |
| `OtaServerModel` | the server as a transition function: three phases sharing one retry rule |
| `OtaServer` | the server as the source has it: one field per static variable, one method per function, the event loop; every entry point refines a transition of the model |
| `OtaServerProperties`, `OtaWitnesses` | the invariant, exactly what breaks it, termination and cost, and a run that breaks it |
| `OtaSendRace` | the server while its handler is blocked in a message call |
| `OtaServerOutcomes` | where a transfer resumes, how each process ends and what goes on the air, byte by byte |
| `OtaServerHistory` | what counters, completions, addresses and delays mean over whole runs |
| `OtaDelivery`, `OtaProgress` | server, target and a lossy, duplicating, reordering network as one state machine; stop-and-wait delivery, and the reachability of success |
| `CspFormat`, `CspCanonical`, `CspSerializer` | the wire format as functions, its uniqueness, and the source's writing, reading and counting loops |
| `CallbackQueue`, `CpcHost`, `HostTransport`, `LinkContents` | the callback pipe, the poll callback, and all interleavings of application, poll and callback threads with the NCP |
| `NcpCommands` | blocking calls, and how the NCP reads their requests |
| `WireBytes`, `IndicationBytes` | requests and indications byte by byte, apart from the formats that produce them |
| `Indications`, `Beacons`, `MacMessages`, `MacAddresses`, `HandlerFields` | the handlers that turn indications into callbacks, the structs they fill, and the whole pipeline |
| `LengthModes`, `ModeCrossing`, `ModeWitnesses` | calls, indications and length-mode switches on top of all those interleavings, and the runs in which a switch goes wrong |
| `TraceLog` | hex dumps into bounded buffers and the per-thread trace buffer |

`dafny verify dfyconfig.toml` checks everything.

## How to read it

A run is a sequence of events (or of actions, where several parties move). `Run`, `After` and
`Possible` give the state after it, so that a lemma over all sequences is a statement about every
reachable state. Outputs (frames handed to the radio stack, completion callbacks) are collected in
order.

Assumptions on the environment are predicates, never hidden preconditions:

* `OtaServerProperties.Fair` and `OtaDelivery.Promise` describe a well-behaved target: it resumes
  inside the image, uses the four segment statuses the server knows, never says ONGOING to the last
  segment, and acknowledges only what it has stored. `FaultsExactly`, `StallsExactly` and
  `PastTheLastFaults` say exactly what happens without them.
* `OtaServerModel.Sane` needs nothing at all of the environment; completion accounting, addressing
  and the nine-call bound of the inner loop rest on it alone.
* The NCP answers one response to each request, and its indications are whole messages short enough
  that the write of their frame to a pipe is atomic: at most PIPE_BUF bytes with the length prefix
  (POSIX.1-2017, `write()`). What a call decodes is what the response buffer holds when it is copied,
  never the answer by assumption.
* `LengthModes.Calm` says that no answer to a mode switch is written over before it is copied. Only
  `ModesAgree` needs it; `ReturnAgrees` and `IndicationsAcrossSwitches` do not.

Found false of the code, with the exact condition under which it does hold:

* Abort does not end a process in its handshake (`AbortEndsProcess`); the header
  `connect/ota-unicast-bootloader-server.h:126-137` says it ends any process.
* ONGOING for the last segment is not taken for an error: the server reads past the image, unless the
  size is a multiple of 96, when it sends an empty segment and can then stall (`PastTheLastFaults`,
  `EmptySegmentStalls`, `EmptySegmentThenStall`).
* The pending state is stored after the message call returns: a sent callback that comes during the
  call is lost, which leaves a handshake stuck, and an abort that comes then is undone
  (`BlockedIsAtomic`, `HandshakeStuck`, `AbortDuringTheCall`).
* The long form of a MAC address is stored over the short one, so that a short address arrives as
  reported only if the long one begins with the same bytes (`BeaconIsIdentity`, `ReportIsIdentity`,
  `HoldsExactly`, `ShortAddressLost`); a peer with the same byte order that writes both out of one
  union is safe (`UnionToUnion`).
* A call can decode an indication instead of its own answer (`CallsDecodeTheirOwnAnswers`,
  `DisturbedAnswerIsPossible`).
* Host and NCP can disagree on the length mode with no call under way, because the host took the
  third byte of an indication for the status of a switch (`ReturnAgrees`, `ModesAgree`,
  `SwitchWrittenOver`).
* An indication that is queued when a switch completes is read in the wrong mode, although the modes
  agree by then (`IndicationsAcrossSwitches`, `SwitchOvertakesIndication`).
* The overflow check of a command looks at 16 bits of its length and misses the longest messages
  (`EscapesExactly`, `LongestMessageEscapes`).
* A bootload delay of 2^31 ms or more is not what the request carries; 2^31 ms go out as zero
  (`DelayExact`, `LongDelayIsLost`).
* An 8-bit length output can disagree with the bytes copied (`ReportedLength`,
  `ReportedLengthCanDiffer`).
* The bit copy handles fewer than 2048 bits (`CoversExactlyBelow2048`), and in overlapping memory can
  take its last bits from a byte it has already overwritten (`OverlapLosesABit`).
* The trace of a one-byte command is empty (`CspFullDecodes`).
* Even in a switch that goes well the modes differ until the host has decoded the answer
  (`ModesDifferDuringSwitch`).

Segment payloads are 96 bytes and the image limit is 0xFFFE*96, as with the shipped configuration,
which enables security. Bytes, 16-bit and 32-bit words are subset types, and every wrap-around and
narrowing of the source is written out.

## Model

| member | source | states |
|---|---|---|
| OtaDelivery.Delivery | src/ota-unicast-bootloader/ota-unicast-bootloader-server/ota-unicast-bootloader-server.c:376-388 | In every run over a network that drops, delays, duplicates and reorders, a server about to send segment k has segments start..k-1 stored at the target, where start is what the handshake response received named, and together they are the image bytes from start*96 to k*96 |
| OtaDelivery.ResumesWhereAgreed | src/ota-unicast-bootloader/ota-unicast-bootloader-server/ota-unicast-bootloader-server.c:190-210 | Either form of an ongoing handshake response under the right tag is accepted, and the segments begin where the extended one says, or at the first |
| OtaDelivery.SuccessMeansDelivered | src/ota-unicast-bootloader/ota-unicast-bootloader-server/ota-unicast-bootloader-server.c:389-393 | In every run, success is reported only when the target holds the whole image from the negotiated segment to the last byte |
| OtaDelivery.AcknowledgedInOrder | src/ota-unicast-bootloader/ota-unicast-bootloader-server/ota-unicast-bootloader-server.c:376-384 | The segments taken as acknowledged are start, start+1, … up to the next one, from the start the target named: none skipped, none taken twice |
| OtaDelivery.SegmentFrames | src/ota-unicast-bootloader/ota-unicast-bootloader-server/ota-unicast-bootloader-server.c:452-489 | Every segment frame ever sent carries exactly the bytes of its own index, 1 to 96 of them, in at most 102 bytes |
| OtaDelivery.ApplyKeepsInv | src/ota-unicast-bootloader/ota-unicast-bootloader-server/ota-unicast-bootloader-server.c:182-239 | The delivery invariant (stored prefix, good frames in flight, kept promises) survives every step of server, target and network |
| OtaDelivery.StoreKeepsSegments | src/ota-unicast-bootloader/ota-unicast-bootloader-server/ota-unicast-bootloader-server.c:219-229 | Storing any frame still in flight, however old, changes no segment the target already has |
| OtaDelivery.AssembledIsImage | src/ota-unicast-bootloader/ota-unicast-bootloader-server/ota-unicast-bootloader-server.c:452-461 | Segments stored each with its own bytes concatenate to exactly that slice of the image |
| OtaDelivery.AcceptedResponse | src/ota-unicast-bootloader/ota-unicast-bootloader-server/ota-unicast-bootloader-server.c:200-229 | A response the server accepts is read field by field as the target encoded it, whatever lies behind it in the buffer |
| OtaDelivery.SuccessMeansCompleted | src/ota-unicast-bootloader/ota-unicast-bootloader-server/ota-unicast-bootloader-server.c:389-393 | Success is reported for an accepted COMPLETED segment response and for nothing else |
| OtaProgress.SuccessStaysReachable | src/ota-unicast-bootloader/ota-unicast-bootloader-server/ota-unicast-bootloader-server.c:331-415 | From every state any run can reach before the server gives up, some continuation reports success: no sequence of losses and failures is a dead end |
| OtaProgress.FinishImage | src/ota-unicast-bootloader/ota-unicast-bootloader-server/ota-unicast-bootloader-server.c:376-393 | From any state of the segment phase the remaining segments can be sent, stored and answered up to success |
| OtaProgress.AlwaysFrameOut | src/ota-unicast-bootloader/ota-unicast-bootloader-server/ota-unicast-bootloader-server.c:452-495 | In every run, while the server waits on a segment the frame of exactly that segment is in the network |
| OtaServerProperties.WindowInRange | src/ota-unicast-bootloader/ota-unicast-bootloader-server/ota-unicast-bootloader-server.c:455-461 | Below the segment count nothing wraps: the window is index*96 to the next boundary or the last byte |
| OtaServerProperties.WindowInsideImage | src/ota-unicast-bootloader/ota-unicast-bootloader-server/ota-unicast-bootloader-server.c:455-461 | For every 32-bit segment index, the window lies inside the image if and only if its wrapped start does |
| OtaServerProperties.WindowAliases | src/ota-unicast-bootloader/ota-unicast-bootloader-server/ota-unicast-bootloader-server.c:209-217 | Without a promise on the resume point the window can wrap around onto the front of the image |
| OtaServerProperties.OrderlyStep | src/ota-unicast-bootloader/ota-unicast-bootloader-server/ota-unicast-bootloader-server.c:182-557 | One step keeps the invariant: timer armed exactly when no sent callback is awaited, next segment below the count, sent segment equal to the next one while a response is due, error counters below their limits |
| OtaServerProperties.OrderlyRun | src/ota-unicast-bootloader/ota-unicast-bootloader-server/ota-unicast-bootloader-server.c:331-358 | Over every fair run the invariant holds: no stall, no fault, both assertions unreachable |
| OtaServerProperties.FaultsExactly | src/ota-unicast-bootloader/ota-unicast-bootloader-server/ota-unicast-bootloader-server.c:452-466 | In any environment the server reads outside the image exactly when it builds a segment whose wrapped window starts past the announced size, or starts inside it and ends past the real image; a window that starts at the size is empty and reads nothing |
| OtaServerProperties.StallsExactly | src/ota-unicast-bootloader/ota-unicast-bootloader-server/ota-unicast-bootloader-server.c:219-229 | In any environment the server is left with neither timer nor sent callback exactly by a segment response with an unknown status before its sent callback, or by leave to go on past the end |
| OtaServerProperties.OngoingAfterTheLast | src/ota-unicast-bootloader/ota-unicast-bootloader-server/ota-unicast-bootloader-server.c:521-535 | ONGOING for the last segment is no end: the segment index reaches the count and another transmission is scheduled |
| OtaServerProperties.PastTheLastFaults | src/ota-unicast-bootloader/ota-unicast-bootloader-server/ota-unicast-bootloader-server.c:452-489 | That transmission reads past the image if and only if the size is no multiple of 96; otherwise an empty segment goes out under the index the image does not have |
| OtaServerProperties.EmptySegmentStalls | src/ota-unicast-bootloader/ota-unicast-bootloader-server/ota-unicast-bootloader-server.c:521-533 | ONGOING for the empty segment leaves the server waiting for a response with no timer armed |
| OtaServerProperties.StalledStays | src/ota-unicast-bootloader/ota-unicast-bootloader-server/ota-unicast-bootloader-server.c:182-358 | Nothing but an abort or a segment response changes a stalled server |
| OtaServerProperties.CopyFitsExactly | app/app_process.c:191-219 | The copy of a window stays inside the image, by where the wrapped window starts, the empty window included |
| OtaWitnesses.EmptySegmentThenStall | src/ota-unicast-bootloader/ota-unicast-bootloader-server/ota-unicast-bootloader-server.c:452-535 | From power-on, with a 96-byte image: an empty second segment is submitted and the server then stalls |
| OtaSendRace.BlockedIsAtomic | src/ota-unicast-bootloader/ota-unicast-bootloader-server/ota-unicast-bootloader-server.c:434-449 | A message call with callbacks, starts and aborts falling into it is the atomic expiry placed behind them, if and only if none of them aborts the process |
| OtaSendRace.RacingIsAtomic | src/ota-unicast-bootloader/ota-unicast-bootloader-server/ota-unicast-bootloader-server.c:331-358 | Every run in which no abort falls into a blocked message call has the state and outputs of a run of atomic steps |
| OtaSendRace.DuringTheCall | src/ota-unicast-bootloader/ota-unicast-bootloader-server/ota-unicast-bootloader-server.c:162-329 | Whatever callbacks come during the call are ignored, and an abort takes effect at most once |
| OtaSendRace.PendingStays | src/ota-unicast-bootloader/ota-unicast-bootloader-server/ota-unicast-bootloader-server.c:241-329 | Over any run, a server that awaits a sent callback without a timer stays as it is and puts out nothing exactly as long as no sent callback of its command, no effective abort and no accepted response comes |
| OtaSendRace.HandshakeStuck | src/ota-unicast-bootloader/ota-unicast-bootloader-server/ota-unicast-bootloader-server.c:434-449 | If the sent callback of a handshake comes during the call that submits it, the server is stuck: without another one no event changes it, abort is refused and starts find it busy |
| OtaSendRace.AbortDuringTheCall | src/ota-unicast-bootloader/ota-unicast-bootloader-server/ota-unicast-bootloader-server.c:559-665 | An abort during the call reports the end of the process and is undone when the frame turns out accepted, so that the process can end twice; when it is refused an assertion fails |
| OtaServerProperties.StepDecreases | src/ota-unicast-bootloader/ota-unicast-bootloader-server/ota-unicast-bootloader-server.c:505-557 | Every step of a process that changes anything or emits anything decreases a lexicographic measure |
| OtaServerProperties.AwaitedMoves | src/ota-unicast-bootloader/ota-unicast-bootloader-server/ota-unicast-bootloader-server.c:331-358 | The event a running server waits for always moves it closer to the end, whatever the outcome of the send |
| OtaServerProperties.RunTerminates | src/ota-unicast-bootloader/ota-unicast-bootloader-server/ota-unicast-bootloader-server.c:505-557 | Moves made plus measure left never exceed the measure at the start, over every fair run |
| OtaServerProperties.ServedRunEnds | src/ota-unicast-bootloader/ota-unicast-bootloader-server/ota-unicast-bootloader-server.c:331-358 | A server given what it waits for as often as its measure says is idle, whatever else happened in between |
| OtaServerProperties.StepAttempts | src/ota-unicast-bootloader/ota-unicast-bootloader-server/ota-unicast-bootloader-server.c:417-503 | Only an expiry in an INTERVAL state hands a frame to the stack, and exactly one |
| OtaServerProperties.AttemptsWithinBudget | src/ota-unicast-bootloader/ota-unicast-bootloader-server/ota-unicast-bootloader-server.c:505-520 | Each step spends its submissions from a budget of 8 attempts for each of 4 target errors, afresh per segment |
| OtaServerProperties.DistributionCost | src/ota-unicast-bootloader/ota-unicast-bootloader-server/ota-unicast-bootloader-server.c:505-557 | From an accepted start a distribution submits at most 32*(total+1) frames and makes at most 180*(total+2) moves, over every fair run |
| OtaServerHistory.CountersAreHistories | src/ota-unicast-bootloader/ota-unicast-bootloader-server/ota-unicast-bootloader-server.c:241-329 | Over every fair run the two counters equal the stack failures since a frame last left the radio and the target failures since the target last agreed to go on |
| OtaServerHistory.GivesUpExactlyAtTheLimit | src/ota-unicast-bootloader/ota-unicast-bootloader-server/ota-unicast-bootloader-server.c:505-520 | A process ends with STACK_ERROR exactly at the 8th stack failure of its history and with UNREACHABLE exactly at the 4th target failure |
| OtaServerHistory.OneCompletionPerProcess | src/ota-unicast-bootloader/ota-unicast-bootloader-server/ota-unicast-bootloader-server.c:559-565 | Over every run in any environment, processes active at first and accepted starts of a kind equal completion callbacks of that kind plus the process still active |
| OtaServerHistory.DistributionEnds | src/ota-unicast-bootloader/ota-unicast-bootloader-server/ota-unicast-bootloader-server.c:331-358 | A distribution given what it waits for 180*(total+2) times is over and has fired exactly one completion, of its own kind |
| OtaServerHistory.IdleIsSilent | src/ota-unicast-bootloader/ota-unicast-bootloader-server/ota-unicast-bootloader-server.c:331-358 | An idle server sends nothing and completes nothing |
| OtaServerHistory.FramesGoToTheTarget | src/ota-unicast-bootloader/ota-unicast-bootloader-server/ota-unicast-bootloader-server.c:434-439 | In every run each frame is addressed to the node the latest accepted start named |
| OtaServerHistory.AbortEndsProcess | connect/ota-unicast-bootloader-server.h:126-137 | Abort ends the running process if and only if it is not in the handshake, where it fails and changes nothing; the header promises more |
| OtaServerHistory.AbortFailsDuringHandshake | src/ota-unicast-bootloader/ota-unicast-bootloader-server/ota-unicast-bootloader-server.c:162-177 | A concrete run in which abort leaves the process running |
| OtaServerHistory.DelayExact | src/ota-unicast-bootloader/ota-unicast-bootloader-server/ota-unicast-bootloader-server.c:591-595 | The delay computed on the wrapping clock is the true remaining time exactly when that time is within half a clock turn |
| OtaServerHistory.LongDelayIsLost | src/ota-unicast-bootloader/ota-unicast-bootloader-server/ota-unicast-bootloader-server.c:591-595 | A delay of 2^31 ms goes out as zero in a request built in the millisecond of the start |
| OtaServerHistory.DeadlineKept | src/ota-unicast-bootloader/ota-unicast-bootloader-server/ota-unicast-bootloader-server.c:582-665 | A bootload process keeps its deadline and tag through every retry until it ends |
| OtaServerHistory.RetriesNameTheSameDeadline | src/ota-unicast-bootloader/ota-unicast-bootloader-server/ota-unicast-bootloader-server.c:582-595 | With a delay below 2^31, every request or retransmission sent e ms after the start carries max(0, d - e) |
| OtaServerOutcomes.ResumesAsAnswered | src/ota-unicast-bootloader/ota-unicast-bootloader-server/ota-unicast-bootloader-server.c:396-415 | An ongoing handshake answer starts the segment phase at the little-endian number in bytes 2 to 5 of an extended answer, at 0 for a plain one |
| OtaServerOutcomes.AcknowledgedMovesOn | src/ota-unicast-bootloader/ota-unicast-bootloader-server/ota-unicast-bootloader-server.c:376-384 | An ongoing answer for the segment last sent schedules the next one |
| OtaServerOutcomes.OtherSegmentAnswers | src/ota-unicast-bootloader/ota-unicast-bootloader-server/ota-unicast-bootloader-server.c:521-535 | Past the last segment such an answer clears the counters and leaves no timer; an unknown status changes nothing but the state |
| OtaServerOutcomes.OnlyAnswersCount | src/ota-unicast-bootloader/ota-unicast-bootloader-server/ota-unicast-bootloader-server.c:182-239 | A message that is not, byte for byte, an answer awaited from the target of the process changes nothing |
| OtaServerOutcomes.BootloadOutcomes | src/ota-unicast-bootloader/ota-unicast-bootloader-server/ota-unicast-bootloader-server.c:638-650 | A bootload process reports SUCCESS exactly for a 3-byte answer with status 0 from its target, REFUSED exactly for status 3, FAILED exactly for any other status |
| OtaServerOutcomes.DistributionOutcomes | src/ota-unicast-bootloader/ota-unicast-bootloader-server/ota-unicast-bootloader-server.c:363-415 | A distribution reports SUCCESS, REFUSED and FAILED exactly for the answers, told by status and index, that mean it, and DATA_UNDERFLOW exactly when there is no data for the segment due |
| OtaServerOutcomes.AbortedExactly | src/ota-unicast-bootloader/ota-unicast-bootloader-server/ota-unicast-bootloader-server.c:162-177 | ABORTED is reported by the abort call alone, in the kind of the process, outside the handshake |
| OtaServerOutcomes.DistributionStarts | src/ota-unicast-bootloader/ota-unicast-bootloader-server/ota-unicast-bootloader-server.c:101-130 | What a distribution start returns, by state, target and size, and the state it leaves, field by field |
| OtaServerOutcomes.BootloadStarts | src/ota-unicast-bootloader/ota-unicast-bootloader-server/ota-unicast-bootloader-server.c:132-160 | What a bootload start returns and the state it leaves, field by field |
| OtaServerOutcomes.FrameOnAir | src/ota-unicast-bootloader/ota-unicast-bootloader-server/ota-unicast-bootloader-server.c:417-503 | Every expiry that hands over a frame, byte by byte: 0x14, 0x10 or 0x12, the tag, size, index or delay least significant byte first, and the slice of the image |
| OtaServerOutcomes.RequestBytes | connect/ota-unicast-bootloader-protocol.h:33-140 | The three requests byte by byte, with the resume flag |
| OtaServerOutcomes.SentAwaited | src/ota-unicast-bootloader/ota-unicast-bootloader-server/ota-unicast-bootloader-server.c:241-329 | The sent callback that counts is the one whose command is that of the frame in flight; what each status does |
| OtaServerOutcomes.SegmentsCover | src/ota-unicast-bootloader/ota-unicast-bootloader-server/ota-unicast-bootloader-server.c:567-577 | 96 bytes a segment cover the size, and one segment fewer does not |
| OtaServer.SendStatuses | src/ota-unicast-bootloader/ota-unicast-bootloader-server/ota-unicast-bootloader-server.c:256-272 | Status 0 is delivered, 0x40 not acknowledged, anything else a failure of the stack |
| OtaServerModel.WindowAtMostOneSegment | src/ota-unicast-bootloader/ota-unicast-bootloader-server/ota-unicast-bootloader-server.c:455-461 | A window that does not end before it starts never exceeds one segment, even after wrap-around |
| OtaServerModel.HandlerCallSpendsBudget | src/ota-unicast-bootloader/ota-unicast-bootloader-server/ota-unicast-bootloader-server.c:702-709 | Each handler call that leaves the event armed has spent error budget, and at most 9 can follow one another |
| OtaServer.OtaServer.InitiateImageDistribution | src/ota-unicast-bootloader/ota-unicast-bootloader-server/ota-unicast-bootloader-server.c:101-130 | Refines the start transition. BUSY exactly if a process was running, SUCCESS exactly for an idle server with a real target and a size from 1 to 0xFFFE*96, and exactly then a process runs that did not before, INVALID_CALL otherwise |
| OtaServer.OtaServer.InitiateRequestTargetBootload | src/ota-unicast-bootloader/ota-unicast-bootloader-server/ota-unicast-bootloader-server.c:132-160 | Refines the bootload start, with the deadline now plus delay on the 32-bit clock. BUSY exactly if a process was running, SUCCESS exactly for an idle server with a real target, and exactly then a process runs that did not before, INVALID_CALL otherwise |
| OtaServer.OtaServer.AbortCurrentProcess | src/ota-unicast-bootloader/ota-unicast-bootloader-server/ota-unicast-bootloader-server.c:162-177 | Refines the abort transition and its reply |
| OtaServer.OtaServer.IncomingMessageCallback | src/ota-unicast-bootloader/ota-unicast-bootloader-server/ota-unicast-bootloader-server.c:182-239 | Refines the receive transition for every endpoint, option, source, payload and length |
| OtaServer.OtaServer.MessageSentCallback | src/ota-unicast-bootloader/ota-unicast-bootloader-server/ota-unicast-bootloader-server.c:241-329 | Refines the sent-callback transition for every status and echoed payload |
| OtaServer.OtaServer.EventHandler | src/ota-unicast-bootloader/ota-unicast-bootloader-server/ota-unicast-bootloader-server.c:331-358 | Refines the timer transition |
| OtaServer.OtaServer.HandleSegmentResponse | src/ota-unicast-bootloader/ota-unicast-bootloader-server/ota-unicast-bootloader-server.c:363-394 | Refines the segment response by status and index |
| OtaServer.OtaServer.HandleHandshakeResponse | src/ota-unicast-bootloader/ota-unicast-bootloader-server/ota-unicast-bootloader-server.c:396-415 | Refines the handshake response, with the negotiated first segment |
| OtaServer.OtaServer.UnicastHandshake | src/ota-unicast-bootloader/ota-unicast-bootloader-server/ota-unicast-bootloader-server.c:417-450 | Submits exactly the handshake frame and moves to PENDING, or counts a stack error and retries |
| OtaServer.OtaServer.UnicastNextSegment | src/ota-unicast-bootloader/ota-unicast-bootloader-server/ota-unicast-bootloader-server.c:452-503 | Submits exactly the frame of the current window, empty when that starts at the size, ends with DATA_UNDERFLOW, or faults |
| OtaServer.OtaServer.BuildSegment | src/ota-unicast-bootloader/ota-unicast-bootloader-server/ota-unicast-bootloader-server.c:471-481 | The frame assembled in place is the encoding of tag, index and the slice of the image |
| OtaServer.OtaServer.GetImageSegment | app/app_process.c:191-219 | Fails exactly without a destination or an image; otherwise copies the slice from start to end inclusive, nothing if start is one past end, and changes nothing else |
| OtaServer.OtaServer.FillHeader | src/ota-unicast-bootloader/ota-unicast-bootloader-server/ota-unicast-bootloader-server.c:422-432 | The first six bytes become frame control, tag and the little-endian word; the rest is kept |
| OtaServer.OtaServer.ScheduleImageDistributionProcessNextTask | src/ota-unicast-bootloader/ota-unicast-bootloader-server/ota-unicast-bootloader-server.c:505-557 | The per-state retry code is the one retry rule of the model, or the advance to the next segment |
| OtaServer.OtaServer.RequestTargetForBootload | src/ota-unicast-bootloader/ota-unicast-bootloader-server/ota-unicast-bootloader-server.c:582-625 | Submits exactly the bootload request with the remaining delay |
| OtaServer.OtaServer.ScheduleBootloadRequestProcessNextTask | src/ota-unicast-bootloader/ota-unicast-bootloader-server/ota-unicast-bootloader-server.c:627-665 | The same retry rule, or the outcome the target reported |
| OtaServer.OtaServer.ImageDistributionProcessFinished | src/ota-unicast-bootloader/ota-unicast-bootloader-server/ota-unicast-bootloader-server.c:559-565 | Idle, timer off and one distribution completion |
| OtaServer.OtaServer.BootloadRequestProcessFinished | src/ota-unicast-bootloader/ota-unicast-bootloader-server/ota-unicast-bootloader-server.c:667-672 | Idle, timer off and one bootload completion |
| OtaServer.OtaServer.RunPendingEvents | src/ota-unicast-bootloader/ota-unicast-bootloader-server/ota-unicast-bootloader-server.c:702-709 | The inner loop is the run of its 1 to 9 expiries and leaves the server finished or awaiting a sent callback |
| OtaProtocol.RequestRoundTrip | connect/ota-unicast-bootloader-protocol.h:33-140 | Every request encodes to a frame that parses back to it, with the payload behind the six-byte header |
| OtaProtocol.ResponseRoundTrip | connect/ota-unicast-bootloader-protocol.h:33-140 | Command, status, tag and 32-bit word of every response are read back from its frame, whatever follows it |
| CspFormat.RoundTrip | src/csp/csp-format.c:32-155 | For every format, argument list, mode and trailing bytes, and whichever blobs the reader copies (b) or points to (p), it returns the arguments if and only if each fits its field |
| CspFormat.FieldRoundTrip | src/csp/csp-format.c:245-304 | A field that fits is read back and the reader stops exactly where the writer did |
| CspFormat.FieldLoss | src/csp/csp-format.c:274-284 | A field that does not fit its width is read back as something else, if at all |
| CspFormat.FieldClamps | src/csp/csp-format.c:96-122 | A narrow, small or NULL destination changes what is stored, never how far the reader moves |
| CspFormat.TruncationIsLocal | src/csp/csp-format.c:84-124 | Whatever is truncated, every field decodes as with unlimited destinations, clamped on its own |
| CspFormat.ReportedLength | src/csp/csp-format.c:96-122 | The reported length equals the bytes copied if and only if the output is 16 bits wide, the blob is below 256 bytes, or the capacity hides the difference |
| CspFormat.ReportedLengthCanDiffer | src/csp/csp-format.c:96-122 | 256 bytes read into room for 84 with an 8-bit length: 84 are copied and zero reported |
| CspFormat.BlobPointedTo | src/csp/csp-format.c:125-149 | A blob read by pointer is found in the buffer where the writer put it, with its length |
| CspFormat.BlobBounded | src/csp/csp-format.c:96-122 | A reported length never exceeds the capacity, nor 255 in short mode |
| CspFormat.NullPassedOver | src/csp/csp-format.c:40-82 | A field read into NULL is passed over, but for a half word and a long-mode length, which are stored without a test |
| CspFormat.NullBlobPassedOver | src/csp/csp-format.c:84-149 | A blob read into NULL is passed over and its length reported |
| CspFormat.ShownLength | src/csp/csp-format.c:125-149 | A blob read by pointer reports its length unclamped, or the low byte of it |
| CspFormat.UnknownIgnored | src/csp/csp-format.c:150-153 | The reader passes over unknown format characters, which the writer refuses |
| CspCanonical.Canonical | src/csp/csp-format.c:32-155 | For arguments that fit with room to spare, the reader returns them if and only if the bytes begin with their encoding |
| CspCanonical.ReadPast | src/csp/csp-format.c:32-155 | Fields that fit are read off the front, and the remaining format is read from exactly where they end |
| CspSerializer.Serializer.FormatResponseCommand | src/csp/csp-format.c:222-311 | A command that fits leaves identifier, fields and zeroes; one that does not is caught if and only if its length modulo 65536 exceeds the buffer size, and otherwise passes as an overrun |
| CspSerializer.Serializer.PutBlob | src/csp/csp-format.c:274-298 | One blob written in place: length prefix in the current mode, then its bytes or zeroes for NULL |
| CspSerializer.Serializer.FetchParams | src/csp/csp-format.c:32-155 | The reading loop computes the decoder for every format, p included, destination list, buffer and mode |
| CspSerializer.Serializer.FetchBlob | src/csp/csp-format.c:84-124 | The blob case of the reader: clamped length, fitting prefix, full advance |
| CspSerializer.Serializer.ComputeCommandLength | src/csp/csp-format.c:157-203 | The 8-bit length counter: for every format it is the start plus the encoded size modulo 256 |
| CspSerializer.CountedIsWritten | src/csp/csp-format.c:157-203 | What the counter adds for a field, the whole size of a blob included, is congruent modulo 256 to the bytes the writer produces for it |
| WireBytes.CommandBytes | src/csp/csp-format.c:222-240 | A command buffer byte by byte: identifier, fields, zeroes up to its size, and nothing changed behind it |
| WireBytes.EncodeIsFlat | src/csp/csp-format.c:241-304 | A command is its fields one behind the other, numbers most significant byte first and lengths in the width of the mode |
| CspSerializer.Serializer.SetLongMessageUse | src/csp/csp-format.c:330-333 | Sets the mode every later field is written and read in |
| CallbackQueue.ParseFrames | src/host-common/callback-queue.c:28-60 | Framing any list of commands and cutting the bytes at the frames gives the list back |
| CallbackQueue.ParseConcat | src/host-common/callback-queue.c:40-60 | A byte string cut between frames parses to the concatenation of its parts |
| WireBytes.FrameBytes | src/host-common/callback-queue.c:28-38 | A queued command stands behind its length, high byte first |
| CallbackQueue.Queue.AppendCallbackCommand | src/host-common/callback-queue.c:28-38 | One write appends one length-prefixed command behind all others |
| CallbackQueue.Queue.HandlePendingCallbackCommands | src/host-common/callback-queue.c:40-60 | The drain empties the queue: every command appended has then been dispatched once, in order, each with the bytes behind it in the buffer |
| CallbackQueue.Queue.Drain | src/host-common/callback-queue.c:46-59 | The loop over the read buffer terminates; it dispatches each frame before checking its length, the incomplete last one included |
| CallbackQueue.CompleteExactlyBetweenFrames | src/host-common/callback-queue.c:46-59 | The drain is complete if and only if what was read ends between frames, whatever the buffer held before; otherwise it ends at the missing data |
| CallbackQueue.CutFrameIsDispatched | src/host-common/callback-queue.c:46-59 | A frame cut off at the end of what was read is dispatched all the same, completed by what the buffer held before; only then does the drain stop |
| CallbackQueue.TurnsOverCommands | src/host-common/callback-queue.c:46-59 | Whole commands are dispatched one by one, in order, each leading the bytes handed to the dispatcher |
| HostTransport.OneOutstandingRequest | src/host-common/ncp-host-common.c:31-57 | Over all interleavings, requests, responses, an unsignalled response and tokens together are 1 exactly between the transmit and the token read of the mutex holder, else 0 |
| HostTransport.CallsDecodeTheirOwnAnswers | src/host-common/cpc-host.c:132-172 | At every copy in every interleaving, the bytes decoded begin with the answer to the call's own request if and only if the poll thread read no message since it put the token for that answer into the pipe |
| HostTransport.DisturbedAnswerIsPossible | src/host-common/ncp-host-common.c:33-36 | A concrete interleaving in which an indication overwrites the response before the copy |
| HostTransport.IndicationsExactlyOnce | src/host-common/callback-queue.c:28-60 | Over all interleavings dispatched indications are a prefix of those emitted, all of them once the path is empty, and neither of the two fatal exits of the transport (unknown origin byte, missing callback data) is taken |
| HostTransport.CommandStep | src/host-common/cpc-host.c:153-172 | Every step of every thread keeps the conservation of the one outstanding request |
| HostTransport.QueueStep | src/host-common/callback-queue.c:28-60 | Every step keeps each emitted indication in exactly one place, in order |
| HostTransport.AppendOne | src/host-common/callback-queue.c:30-35 | A command framed at the end of the pipe is parsed behind all the others |
| HostTransport.TakeOne | src/host-common/callback-queue.c:46-57 | Taking the first command moves it from the bytes read to the dispatched ones |
| CpcHost.CpcHost.PollCb | src/host-common/cpc-host.c:153-172 | The first byte decides between one token, one queue entry and the fatal exit; the buffer front is overwritten |
| CpcHost.PolledExactly | src/host-common/cpc-host.c:153-172 | By first byte 0x69, 0x63 or any other: one token more, the framed message behind the others in the pipe, or the fatal exit; and nothing else |
| CpcHost.PollRefines | src/host-common/cpc-host.c:153-172 | The two poll steps of the interleaving model, taken together, are what the handler does |
| CpcHost.ReceiveRefines | src/host-common/ncp-host-common.c:33-36 | The two steps of the mutex holder are what the end of a blocking command does |
| CpcHost.DrainRefines | src/host-common/callback-queue.c:40-60 | The drain steps, run to their end, are what the drain does to pipe and dispatched commands |
| CpcHost.CpcHost.ReceiveResponse | src/host-common/ncp-host-common.c:31-37 | One token is taken and the response buffer is copied as it is by then |
| Indications.HandlerIsIdentity | src/csp/csp-command-callbacks.c:64-112 | A message-sent or incoming-message indication read in the mode it was written in arrives unchanged if and only if its payload is within 2048 bytes, or 255 in short mode |
| Indications.PlainHandlersRead | src/csp/csp-command-callbacks.c:30-62 | Each of the six handlers that fetch values only passes on the values the NCP wrote in its format if and only if each fits its field |
| IndicationBytes.StatusHandlers | src/csp/csp-command-callbacks.c:30-39 | Stack status and the end of a frequency-hopping start pass on the first byte |
| IndicationBytes.ChildJoinHandler | src/csp/csp-command-callbacks.c:41-53 | A child join passes on the type in the first byte and the identifier in the next two, high byte first |
| IndicationBytes.EnergyScanHandler | src/csp/csp-command-callbacks.c:255-276 | The end of an energy scan passes on three bytes and a two-byte variance |
| IndicationBytes.EmptyHandlers | src/csp/csp-command-callbacks.c:55-61 | Radio calibration and the end of an active scan pass on nothing |
| IndicationBytes.OthersAreFatal | src/csp/csp-command-callbacks.c:292-335 | Any identifier but those eleven is fatal |
| IndicationBytes.MessageSentHandler | src/csp/csp-command-callbacks.c:64-89 | A sent message from its literal parameter bytes, in both modes |
| IndicationBytes.IncomingMessageHandler | src/csp/csp-command-callbacks.c:91-112 | An incoming message from its literal parameter bytes, in both modes |
| IndicationBytes.IncomingMacHandler | src/csp/csp-command-callbacks.c:114-151 | An incoming MAC message from its literal parameter bytes; the long addresses are what the callback finds |
| IndicationBytes.MacSentHandler | src/csp/csp-command-callbacks.c:153-194 | A sent MAC message from its literal parameter bytes |
| IndicationBytes.BeaconHandler | src/csp/csp-command-callbacks.c:196-245 | A beacon from its literal parameter bytes |
| ModeCrossing.UnchangedAcrossModes | src/csp/csp-command-callbacks.c:64-112 | Written in one mode and read in another, an indication arrives unchanged if and only if the modes are equal or the bytes around its payload coincide |
| ModeCrossing.FirstByteTells | src/csp/csp-command-callbacks.c:64-112 | With a payload that does not begin with a zero byte it arrives unchanged if and only if the modes are equal |
| ModeCrossing.CoincidenceIsPossible | src/csp/csp-command-callbacks.c:64-112 | The coincidence does occur, for an indication of zeroes |
| Indications.PipelineIsIdentity | src/csp/csp-command-callbacks.c:64-112 | Any list of such indications, encoded, framed, queued, drained and dispatched, reaches the application unchanged and in order, provided each is read in the mode it was written in |
| Indications.CommandFitsQueue | src/csp/csp-command-callbacks.c:64-112 | Every deliverable indication is within the 2096-byte command limit and one atomic pipe write |
| Indications.Dispatcher.MessageSentCommandHandler | src/csp/csp-command-callbacks.c:64-89 | Reads the nine fields in the handler's format; the blob's length replaces the one before it |
| Indications.Dispatcher.IncomingMessageCommandHandler | src/csp/csp-command-callbacks.c:91-112 | Reads the eight fields in the handler's format |
| Indications.Dispatcher.IncomingMacMessageCommandHandler | src/csp/csp-command-callbacks.c:114-151 | Reads the seventeen fields, stores short and long form of each address over each other in the union of ember-types.h, and keeps the blob's length |
| Indications.Dispatcher.MacMessageSentCommandHandler | src/csp/csp-command-callbacks.c:153-194 | The same for the eighteen fields of a sent MAC message |
| Indications.Dispatcher.PlainCommandHandler | src/csp/csp-command-callbacks.c:247-287 | Fetches the values of its format, for the six handlers without blobs; what they are is stated byte by byte in IndicationBytes |
| MacMessages.ReportIsIdentity | src/csp/csp-command-callbacks.c:114-194 | A MAC message indication reaches the callback as the NCP wrote it if and only if both long addresses are within 8 bytes, the length is that of the payload and within the limit of the mode, and in each address the bytes of the long form agree with those of the short one |
| MacMessages.ReportReads | src/csp/csp-command-callbacks.c:114-194 | Within the arrays everything but the two short addresses always survives, the long addresses included |
| MacMessages.ReadsInside | src/csp/csp-command-callbacks.c:131-146 | Whatever the NCP sends, the length a MAC callback gets is that of the bytes copied, at most 2048 or what the mode can say |
| MacMessages.StoreFrame | src/csp/csp-command-callbacks.c:121-135 | Both unions of a frame are filled in the order of the format |
| MacAddresses.HoldsExactly | connect/ember-types.h:347-363 | After both stores a union holds both forms if and only if the first min(2, length) bytes of the long form are those of the short one in host byte order |
| MacAddresses.ByteOrder | connect/ember-types.h:356-360 | A short form in memory is low byte first on a little-endian host, high byte first on the other |
| MacAddresses.MeantForm | connect/ember-types.h:349-359 | The form the mode names: a long address always survives, a short one exactly if the long form agrees with it |
| MacAddresses.UnionToUnion | src/csp/csp-command-app.c:942-949 | An address written out of one union survives if and only if both machines have the same byte order or the two bytes are equal |
| MacAddresses.StoreAddress | src/csp/csp-command-callbacks.c:209-214 | The short form and then the long one are stored in place at the start of the same eight bytes |
| MacAddresses.ShortFormLost | connect/ember-types.h:349-360 | Short address 0x1234 with a long one of zeroes reads as short address 0 in either byte order |
| Indications.Dispatcher.HandleIndication | src/csp/csp-command-callbacks.c:292-335 | Dispatches by identifier to all eleven handlers; unknown identifiers are fatal, and only a beacon changes the kept buffers |
| Beacons.BeaconIsIdentity | src/csp/csp-command-callbacks.c:196-245 | A beacon reaches the callback as reported, whatever the kept buffers held, if and only if its three blobs are within 8, 84 and 30 bytes and the long form of its address agrees with the short one stored under it |
| Beacons.BeaconReads | src/csp/csp-command-callbacks.c:196-245 | Within the buffers everything but the short address always survives |
| Beacons.ShortAddressLost | src/csp/csp-command-callbacks.c:208-214 | A beacon from short address 0x1234 with a long address of zeroes reaches the callback with short address 0 |
| Beacons.CopiesStayInside | src/csp/csp-command-callbacks.c:204-227 | Whatever the NCP sends, no blob is copied past its buffer and no length exceeds the bytes copied |
| Beacons.BeaconHandler.IncomingBeaconCommandHandler | src/csp/csp-command-callbacks.c:196-245 | The address union is filled by both stores, each length is the last one stored, and the kept buffers get the new blobs at their front and keep older bytes behind them |
| NcpCommands.NcpClient.Blocking | src/csp/csp-command-app.c:838-852 | The request sent is the encoded call and the status is byte 2 of whatever the response buffer holds when it is copied; an oversize command stops at the assertion or escapes it |
| NcpCommands.NcpClient.EmberMessageSend | src/csp/csp-command-app.c:880-908 | Transmits the request whose bytes WireBytes.MessageSendBytes gives and returns the status in the response buffer for messages of at most 2085 (long) or 2087 (short) bytes; from 65525 or 65527 bytes on, the buffer is overrun unnoticed; in between, the assertion stops |
| NcpCommands.NcpClient.EmberNcpSetLongMessagesUse | src/csp/csp-command-app.c:838-858 | The mode changes exactly when the status decoded from the response buffer is success, whoever wrote it |
| NcpCommands.EscapesExactly | src/csp/csp-format.c:306-308 | A call passes the overflow check with an oversize command if and only if it sends at least 65525 bytes in long mode or 65527 in short mode |
| NcpCommands.LongestMessageEscapes | src/csp/csp-format.c:306-308 | 65535 bytes in long mode make a command of 65546 bytes, taken for one of 10 |
| NcpCommands.RequestReadBack | src/csp/csp-command-app.c:889-899 | In equal modes the NCP reads back exactly the call made if and only if the mode can express its message |
| WireBytes.MessageSendBytes | src/csp/csp-command-app.c:889-899 | The request byte by byte, for every call and mode: identifier, destination high byte first, endpoint, tag, the length twice in the width of the mode, the message, the options |
| WireBytes.SetLongMessagesBytes | src/csp/csp-command-app.c:838-852 | The mode switch byte by byte |
| NcpCommands.BlobAcrossModes | src/csp/csp-format.c:274-284 | A blob written in long mode and read in short mode survives if and only if it is empty |
| LengthModes.ModesAgree | src/csp/csp-command-app.c:838-858 | Over every run of calls, indications and threads in which no answer to a switch is written over, the length modes of host and NCP agree whenever no answer is outstanding, and each request was read as made exactly when its mode could express it |
| LengthModes.ReturnAgrees | src/csp/csp-command-app.c:849-857 | At the end of any call, modes that agreed before agree after it if and only if it was not a switch, asked for the current mode, or the decoded status says success just when the NCP's own did |
| LengthModes.IndicationsAcrossSwitches | src/csp/csp-command-callbacks.c:64-112 | Over every run, mode switches included, the callbacks are those of the indications emitted, in order, each unchanged if and only if the host's mode at the drain is the NCP's at the emission or the bytes coincide |
| LengthModes.AlwaysLinked | src/host-common/ncp-host-common.c:31-37 | In every run the link carries only the request of the call that holds the mutex, as the host wrote it, and the NCP's answer to it |
| LengthModes.NcpCanReply | src/host-common/ncp-host-common.c:31-37 | In every run the NCP can answer a request it has, with any status |
| LinkContents.CarriesStep | src/host-common/cpc-host.c:132-172 | Every step of every thread keeps the contents of the link those of the one call |
| ModeWitnesses.SwitchWrittenOver | src/host-common/ncp-host-common.c:33-36 | For any status the NCP gives a switch and any status byte of an indication behind it, a run ends with no call under way and each side in the mode its own status says |
| ModeWitnesses.ModesCanDisagreeForGood | src/csp/csp-command-app.c:853-855 | A refused switch made by the host alone, and an accepted one made by the NCP alone |
| ModeWitnesses.SwitchOvertakesIndication | src/csp/csp-command-callbacks.c:91-112 | With nothing written over and the modes equal, a queued short-mode indication is read in long mode and arrives changed |
| ModeWitnesses.ModesDifferDuringSwitch | src/csp/csp-command-app.c:853-855 | Between the NCP's switch and the host's own the modes differ even when nothing goes wrong |
| ByteUtilities.StoreFetch16 | src/stack/framework/byte-utilities.c:45-60 | A 16-bit value stored high byte first is fetched back |
| ByteUtilities.StoreFetch32 | src/stack/framework/byte-utilities.c:62-93 | A 32-bit value stored in either byte order is fetched back in the same order |
| ByteUtilities.ByteOrders | src/stack/framework/byte-utilities.c:45-93 | Two and four stored bytes are the base-256 digits in the order named |
| ByteUtilities.StoreInt32u | src/stack/framework/byte-utilities.c:62-70 | The store loop writes exactly the four base-256 digits in the chosen order |
| ByteUtilities.StoreHighLowInt16u | src/stack/framework/byte-utilities.c:56-60 | Two bytes are written and nothing else |
| BitPrefix.MatchingPrefixBitLength | src/stack/framework/byte-utilities.c:145-163 | The result is the longest common bit prefix within both lengths |
| BitPrefix.BitCopy | src/stack/framework/byte-utilities.c:167-177 | In place and for ranges that overlap in any way, the covered bits become those of the source as the copy finds them and every other bit is kept |
| BitPrefix.OverlapLosesABit | src/stack/framework/byte-utilities.c:171-176 | Nine bits copied one byte further on in the same memory: the ninth is taken from a byte already moved over it |
| BitPrefix.CoversExactlyBelow2048 | src/stack/framework/byte-utilities.c:169-171 | The copy covers count modulo 2048 bits, because the byte count is kept in 8 bits, so all of them if and only if count is below 2048 |
| BitPrefix.CopyMatchesSource | src/stack/framework/byte-utilities.c:145-177 | Matching the copy against its source over the copied bits returns exactly their number |
| TraceLog.StrBytes | src/log/log.c:28-117 | Writes only inside the output, ends it with NUL and leaves the rendered text; stops at an assertion only for an empty output or a refused truncation |
| TraceLog.RenderLoop | src/log/log.c:92-108 | The loop leaves the dump of the longest prefix that fits the room |
| TraceLog.HexRoundTrip | src/log/log.c:92-108 | Every dump, delimited or not, in either case, decodes to the bytes dumped |
| TraceLog.LoopCovers | src/log/log.c:84-108 | The loop covers the longest prefix that leaves room for ellipsis and terminator, which is all of the input if and only if the whole dump fits |
| TraceLog.DumpDecodes | src/log/log.c:84-109 | A dump is its ellipsis behind hex that decodes to exactly the bytes consumed |
| TraceLog.RenderedCharacters | src/log/log.c:45-55 | Every third character is a colon if colons are asked for, a blank if only blanks are; all others are digits in the case asked for |
| TraceLog.TruncatedEnds | src/log/log.c:62-72 | A dump that does not fit ends in three dots or a star as asked for, dots first |
| TraceLog.NoRoom | src/log/log.c:85-89 | Without room for a byte the text is what fits of the ellipsis |
| TraceLog.StopsExactly | src/log/log.c:41-65 | A call stops exactly without room for the terminator, or if asked to and the dump does not fit |
| TraceLog.NoInput | src/log/log.c:74-83 | NULL reads <null> as far as there is room, and an empty input leaves an empty text |
| TraceLog.RenderedFits | src/log/log.c:72-112 | Every rendered text leaves room for its terminator and contains none |
| TraceLog.CspIdDecodes | src/log/log.c:119-123 | The identifier text is 18 characters, begins with the fixed prefix, and its upper-case digits decode to the identifier |
| TraceLog.CspFullDecodes | src/log/log.c:125-128 | A command dump decodes to the command if and only if the command is not a single byte, whose dump is empty |
| TraceLog.TraceBuffer.TrCspId | src/log/log.c:158-168 | Overflows exactly when 19 characters no longer fit; otherwise the new string joins those handed out and none of them changes |
| TraceLog.TraceBuffer.TrCspFull | src/log/log.c:170-181 | Overflows exactly when three characters a byte no longer fit and stops at an assertion exactly for an empty command; otherwise the new string joins those handed out and none of them changes |
| TraceLog.TraceBuffer.Enter | src/log/log.c:140-148 | Opens one more trace call; every string handed out stays |
| TraceLog.TraceBuffer.Exit | src/log/log.c:150-156 | Gives the strings up only when the outermost trace call ends |

## Left out

- Fatal exits and failed assertions are result values or states (`dead`, `fatal`, `faulted`, `None`); where the proofs show them unreachable the table says so, and nothing is claimed to run after them.
- Threads of the OTA process: starting the thread and arming its timer is part of the initiate step, so overlapping threads of an old and a new process are not modelled, and the class OtaServer runs each callback and handler to its end. OtaSendRace splits the handler at the message call, the one point where it blocks; interleavings of its plain field accesses with another thread, which are data races in C, are not modelled.
- Timers and polls: no timing is claimed. The timer is an event that may come whenever it is armed, the inner event loop does not wait for it at all, and minimum spacing between transmissions is not claimed. The one-second response timeout and its fatal exit are not modelled.
- The clock is milliseconds modulo 2^32. The source computes the deadline and the current time as floating-point numbers and converts them to 32 bits, which C leaves undefined above 2^32 - 1, that is from about 49.7 days of uptime on; the model wraps there instead, and rounding is not modelled.
- Messages of earlier processes under the same tag are not in the network of OtaDelivery; the delivery results are about the messages of one run.
- Faulted stands for a segment copy outside the image, which is undefined in C.
- OtaServer.OtaServer.IncomingMessageCallback: the payload is the receive buffer, which is longer than any frame header; like the source it reads headers without looking at the message length, a bootload response excepted.
- Variable arguments are typed lists, and out-pointers are values returned in order; a handler's struct is built from them afterwards, in the order of the stores where members share memory.
- CspSerializer.Serializer.FormatResponseCommand: once a field has left the buffer nothing is claimed about memory, which is undefined in C; the later fields are only counted.
- CallbackQueue.Queue.AppendCallbackCommand: the moment a blocking write completes. Where threads interleave, in HostTransport, a frame of more than PIPE_BUF bytes, whose write another read could split, is outside the assumptions on the NCP; the longest message it formats has 2096 bytes.
- HostTransport has one callback thread, a pipe no larger than the read buffer, and takes the mutual exclusion of the command mutex as given.
- Indications.Dispatcher.PlainCommandHandler: the six handlers it stands for differ only in format; what they pass on is the list of values read. In all handlers signed fields are kept as bytes, and a boolean is whether its byte is not zero.
- MacAddresses.StoreAddress: the bytes of the union behind the longer of the two forms, which nobody has stored, are not part of the address a callback gets.
- LengthModes emits the two message indications only; a request too long for the command buffer does not reach the link.
- The other API stubs, which repeat the pattern of the two calls modelled; those that fetch a MAC address fill the same union as the handlers.
- Reverse copy, byte comparison and the string functions of byte-utilities.c: nothing modelled here calls them.
- TraceLog.TraceBuffer.TrCspFull: negative lengths are not modelled; its callers pass unsigned ones. Opening the trace stream in the first trace call is left out.
- CPC daemon calls, the command-line tool, file loading, key storage and error-code tables: foreign calls and user interface.
- Lengths are unbounded where the source uses size_t.
