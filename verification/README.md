# Verification model of the DoIP/UDS diagnostic client

A Dafny model of how the client library exchanges diagnostic requests and responses with a vehicle over
DoIP (ISO 13400-2), and proofs of what that exchange guarantees. `dafny verify dfyconfig.toml` checks all
of it.

The heart is one diagnostic request. `DmConversation::SendDiagnosticRequest` runs on the application's
thread; received frames are handled on the reader thread; the two share a channel state, a conversation
state, two timers and one receive buffer without a common lock. Around it are the routing activation gate,
the reader worker and its stream framing, the frame codec, and vehicle discovery.

## How time and threads are modelled

| grain | modules | a step is |
|---|---|---|
| fine | `DiagnosticExchange`, `ExchangeSafety`, `ExchangeFaults`, `HandshakeIntegrity`, `ReaderWorker` | one state query, transition, timer start, cancellation, resize, copied byte, mutex or condition-variable operation; the threads interleave freely |
| coarse | `CoarseExchange`, `FinalResponse`, `TcpChannel`, `DoipTcpChannel`, `VdConversation` | the handling of one received frame; user-thread steps stay separate, and a blocking call is given the frames that arrive at each of its program points |
| sequential | `DmConversation`, `ResponseWindow` | frames arrive, at given times, only while the user thread is blocked in a timer |

`CoarseExchange.CoarseIsFine` shows that every coarse run of the exchange is a fine run, so whatever holds
of all interleavings holds of the coarse runs too. `Agreement.ExchangeIsRun` shows that what the sequential
grain says of a request is what a coarse run comes to. In `DmConversation`, `TcpChannel`, `TcpSocket`,
`SyncTimer`, `StateContext` and `VdConversation` the objects of the source are classes with its fields,
proved against specification functions.

Assumptions: the channel handler is reset only while neither thread is inside a call or a frame; one thread
calls each conversation; TCP frames handed to the channel have at least 13 bytes and announcements at least
31 payload bytes, as the code indexes them without looking; bytes stand for the characters of a
`std::string`. A response that begins with 0x7F and has fewer than three bytes makes the code read past its
end; here it counts as not pending.

## What the code does, where it may surprise

- *Wedged channel.* If the acknowledgement timer expires between the reader's query and its transition, the
  call returns a timeout but the channel is left claiming an acknowledgement. Every later request is then
  refused as busy until a reset (`WedgeReachable`, `WedgedUntilReset`). `FailedCallLeavesIdle` gives the
  exact condition. It needs the fine grain: with whole frames it cannot happen.
- *Late acknowledgement.* In the same interleaving the next request can pass its handshake on the
  acknowledgement of the one that timed out (`LateAckReachable`). `HandshakeIntegrity` gives the exact condition.
- *Stuck call.* A pending answer recorded just before the call resets the conversation, with its
  cancellation just after the timer start, leaves the loop testing its state until another response is
  accepted. This is the only way to get there (`StuckOnlyAfterSplit`, `SplitGetsStuck`). If the next response
  is refused instead, the call never returns (`StuckUntilAccepted`, `ForsakenForever`). With whole frames it
  cannot happen (`NeverSpins`), and every call ends (`EveryCallEnds`).
- *Busy after a timeout.* A call that times out waiting for the final response leaves the channel waiting.
  Later requests are refused until a response other than a pending answer arrives, or a reset
  (`BusyPersists`, `OutstandingEnds`).
- *A final response can be lost*, even with whole frames: when it is handled after the channel began to wait
  but before the call has reset the conversation or started its P2 timer; when the call has decided on P2*
  and not yet recorded it, or its loop has read that record and not yet started the timer; and when the call
  has seen an expiry and not yet acted on it. In all but the last case the call waits one more window, and then it times out.
  Everywhere else the response is returned, except that a blocked call may see its expiry first
  (`FinalResponseReturned`, `ExpirySeenFirst`).
- *Early acknowledgements and activation responses are lost* when they are handled before their timer starts:
  the call blocks for the whole timeout. `TcpChannel` states this in the contracts of both handlers.
- *A refused response shows as a timeout.* A response longer than the receive buffer closes the channel but
  wakes nobody (`RefusedResponse`).
- *A disconnect does not stop a read under way*: if that read succeeds it sets the running flag again, and
  the worker goes on to the next one (`StopsReading`).
- *Connecting twice fails.* `ConnectToHost` on an activated channel reports failure, although it is connected.
- *A cut frame is delivered.* The error of the second read is not checked, so a frame cut by the peer after
  its header is handed over filled up with zeroes (`CutStream`). The length field is trusted as it is.
- *Refusal code 0x02 is never produced*: no 32-bit length exceeds its limit (`HeaderCheck`).
- *Lengths are cut to eight bits* in discovery requests: a VIN of 17 + 256·n characters is accepted and cut
  to its first 17, and an EID may lack its last digit (`VerifiedExactly`).

## Model

| member | source | states |
|---|---|---|
| ExchangeSafety.ResponseIntegrity | diag-client-lib/appl/src/diag-client/dcm/conversation/dm_conversation.cpp:215-337 | Every interleaving: when a call returns a response, the buffer behind it is byte for byte one frame that the reader accepted after this call moved the channel to waiting; it fits the buffer, is not 7F xx 78, and every other frame accepted since is pending |
| ExchangeSafety.FactsHold | diag-client-lib/lib/doip-client/channel/tcp_channel/doip_diagnostic_message_handler.cpp:452-491 | Every interleaving: a conversation in success inside the response loop, or a response about to be returned, means a complete frame in the buffer with no step left that could overwrite it; a half-copied buffer is never in success |
| ExchangeSafety.NoFrameReturnedTwice | diag-client-lib/appl/src/diag-client/dcm/conversation/dm_conversation.cpp:311-317 | When a response is returned, a later call begins and returns a response too, the frames behind the two were accepted before and after that call began: no frame answers two calls |
| ExchangeSafety.ReturnedBytesStay | diag-client-lib/appl/src/diag-client/dcm/service/dm_uds_message.h:71-91 | A returned response is a reference to the shared buffer; along every continuation in which the channel does not begin to wait again it reads the same bytes |
| ExchangeSafety.BufferWrittenOnlyWhileWaiting | diag-client-lib/appl/src/diag-client/dcm/conversation/dm_conversation.cpp:381-388 | Any step that changes the buffer is a reader step and finds the channel waiting for a response |
| ExchangeSafety.Ownership | diag-client-lib/lib/doip-client/channel/tcp_channel/doip_diagnostic_message_handler.cpp:452-491 | Every reachable state: between its state query and its final transition on a response the reader finds the channel still waiting; a call in its handshake never shares the channel with an outstanding response |
| ExchangeSafety.Conservation | diag-client-lib/lib/doip-client/channel/tcp_channel/doip_diagnostic_message_handler.cpp:515-525 | Every run: positive acknowledgements turned into success equal responses consumed plus responses abandoned by a reset, plus one exactly while the channel waits for a response |
| ExchangeSafety.CalledMeans | diag-client-lib/appl/src/diag-client/dcm/conversation/dm_conversation.cpp:215-226 | The recorded call position is the last call begun on the run |
| ExchangeSafety.EnteredMeans | diag-client-lib/lib/doip-client/channel/tcp_channel/doip_diagnostic_message_handler.cpp:515-525 | The recorded position is the last transition to waiting for a response on the run |
| ExchangeSafety.AcceptedMeans | diag-client-lib/lib/doip-client/channel/tcp_channel/doip_diagnostic_message_handler.cpp:452-464 | Of the frames accepted since the channel last began to wait, at most the last accepted one is not pending |
| ExchangeSafety.QuietRun | diag-client-lib/lib/doip-client/channel/tcp_channel/doip_diagnostic_message_handler.cpp:481-491 | A delivered buffer with nothing left to write it stays as it is along every continuation without a new wait |
| ExchangeFaults.BusyPersists | diag-client-lib/lib/doip-client/channel/tcp_channel/doip_diagnostic_message_handler.cpp:546-554 | While a response is outstanding, any number of calls, acknowledgements and pending answers keep it so: nothing is written and every call that asks is told busy |
| ExchangeFaults.OutstandingEnds | diag-client-lib/lib/doip-client/channel/tcp_channel/doip_diagnostic_message_handler.cpp:463-482 | A handled response frees a waiting channel if and only if it is not a pending answer within the buffer limit |
| ExchangeFaults.FailedCallLeavesIdle | diag-client-lib/lib/doip-client/channel/tcp_channel/doip_diagnostic_message_handler.cpp:503-545 | After a failed handshake the channel is idle once the reader has finished, if and only if the reader was not between its query and its transition on an acknowledgement |
| ExchangeFaults.WedgeReachable | diag-client-lib/lib/doip-client/channel/tcp_channel/doip_diagnostic_message_handler.cpp:418-450 | An interleaving in which the acknowledgement timeout is returned and the channel is left claiming a positive acknowledgement |
| ExchangeFaults.WedgedUntilReset | diag-client-lib/lib/doip-client/channel/tcp_channel/doip_diagnostic_message_handler.cpp:493-555 | From there, on every run without a reset, nothing is written, every call that asks is told busy, and the channel state stays |
| ExchangeFaults.StuckReachable | diag-client-lib/appl/src/diag-client/dcm/conversation/dm_conversation.cpp:236-265 | An interleaving that leaves the response loop testing a state it has no branch for, with an idle reader, whenever the buffer admits a pending answer |
| ExchangeFaults.SpinsForever | diag-client-lib/appl/src/diag-client/dcm/conversation/dm_conversation.cpp:268-322 | A stuck call goes round its loop any number of times without change while no frame is handled |
| ExchangeFaults.StuckOnlyAfterSplit | diag-client-lib/appl/src/diag-client/dcm/conversation/dm_conversation.cpp:236-322 | On every run that leaves a call stuck there was a moment at which a pending answer was split around the start of its wait: the call had overwritten the record of it and was blocked, and the cancellation was the next step of the reader |
| ExchangeFaults.SplitGetsStuck | diag-client-lib/appl/src/diag-client/dcm/conversation/dm_conversation.cpp:252-269 | From every such moment the next step of the reader and three of the call leave it stuck |
| ExchangeFaults.StuckUntilAccepted | diag-client-lib/appl/src/diag-client/dcm/conversation/dm_conversation.cpp:348-390 | A response ends the stuck state if and only if the channel still waits and the conversation accepts it; if not, the call is forsaken |
| ExchangeFaults.ForsakenForever | diag-client-lib/appl/src/diag-client/dcm/conversation/dm_conversation.cpp:268-322 | A forsaken call, in its loop with nothing recorded and a channel that no longer waits, never returns on any continuation |
| ExchangeFaults.ForsakenReachable | diag-client-lib/lib/doip-client/channel/tcp_channel/doip_diagnostic_message_handler.cpp:475-482 | An interleaving that gets there: a split pending answer, then a response too long for the buffer |
| HandshakeIntegrity.HandshakeIntegrity | diag-client-lib/lib/doip-client/channel/tcp_channel/doip_diagnostic_message_handler.cpp:418-450 | Every interleaving: a call that passes its handshake does so on a positive acknowledgement accepted after its own transition to waiting, if and only if the reader was not at that transition about to write one accepted before |
| HandshakeIntegrity.LateAckReachable | diag-client-lib/lib/doip-client/channel/tcp_channel/doip_diagnostic_message_handler.cpp:502-521 | A run in which a call times out on its acknowledgement and, with no frame arriving after that, the next call passes its handshake |
| HandshakeIntegrity.AckFactsHold | diag-client-lib/lib/doip-client/channel/tcp_channel/doip_diagnostic_message_handler.cpp:493-555 | What the channel state says in a handshake about acknowledgements accepted before it and within it |
| ExchangeFaults.FinishResponse | diag-client-lib/appl/src/diag-client/dcm/conversation/dm_conversation.cpp:348-415 | The reader steps on one response, uninterrupted, amount to: ignored unless waiting; a final one is stored whole, succeeds and frees the channel; a pending one keeps it waiting; any other only frees it |
| ExchangeFaults.FinishAck | diag-client-lib/lib/doip-client/channel/tcp_channel/doip_diagnostic_message_handler.cpp:418-450 | The reader steps on one acknowledgement, uninterrupted, amount to one transition that only 0x8002 with code 0x00 makes positive |
| DiagnosticExchange.ResponseClasses | diag-client-lib/appl/src/diag-client/dcm/conversation/dm_conversation.cpp:358-391 | By its bytes: a pending answer is 7F, any service, 78, and more bytes or none; a final response is any other that is not empty and fits the buffer |
| DiagnosticExchange.AckStateExactly | diag-client-lib/lib/doip-client/channel/tcp_channel/doip_diagnostic_message_handler.cpp:418-446 | Only 0x8002 with code 0x00 lets a request pass; every other acknowledgement, 0x8003 with any code included, refuses it |
| CoarseExchange.CoarseIsFine | diag-client-lib/lib/doip-client/channel/tcp_channel/doip_tcp_channel_handler.cpp:192-212 | Every run in which frames are handled as a whole reaches a state that a run of single steps reaches |
| CoarseExchange.HandleEffect | diag-client-lib/lib/doip-client/channel/tcp_channel/doip_tcp_channel_handler.cpp:192-212 | All steps of the reader on one frame, taken together |
| Agreement.ExchangeIsRun | diag-client-lib/appl/src/diag-client/dcm/conversation/dm_conversation.cpp:215-337 | From every state between calls with an idle channel a run of both threads comes to exactly the outcome, channel and buffer of the recursive exchange, handling exactly the frames that it takes, in order |
| Agreement.RefusalIsRun | diag-client-lib/appl/src/diag-client/dcm/conversation/dm_conversation.cpp:323-335 | The errors of a missing message, a channel without routing, a busy channel and a failed write, as runs of the machine |
| Agreement.RunIsExec | diag-client-lib/lib/doip-client/channel/tcp_channel/doip_tcp_channel_handler.cpp:192-212 | A run continued from the state that a run reaches is a longer run |
| CoarseExchange.NeverSpins | diag-client-lib/appl/src/diag-client/dcm/conversation/dm_conversation.cpp:268-322 | With frames handled as a whole, the loop never tests its state at the initial or the half-received one |
| CoarseExchange.EveryCallEnds | diag-client-lib/appl/src/diag-client/dcm/conversation/dm_conversation.cpp:215-337 | With frames handled as a whole, a call makes at most twelve moves and eight per accepted response, and can always move until it returns |
| CoarseExchange.BlockingBound | diag-client-lib/appl/src/diag-client/dcm/conversation/dm_conversation.cpp:239-309 | With k accepted pending answers the timers a call has started, each counted with the window its step opens, add up to at most 2000 + P2 + k P2* milliseconds, at most k of them P2* |
| CoarseExchange.RegularHolds | diag-client-lib/appl/src/diag-client/dcm/conversation/dm_conversation.cpp:252-264 | With frames handled as a whole, a cancelled response timer always means a recorded pending or final response |
| FinalResponse.FinalResponseReturned | diag-client-lib/appl/src/diag-client/dcm/conversation/dm_conversation.cpp:236-322 | Every run with whole frames: a final response handled while a call waits is returned if and only if the call was not just about to overwrite the record or to start a timer; else it is lost, the call waits through the window it was about to open and times out, though the buffer holds the response and the channel is idle |
| FinalResponse.ExpirySeenFirst | diag-client-lib/lib/utility-support/utility/sync_timer.h:106-116 | A final response handled while the call is blocked is lost too if the call sees the expiry before the cancellation |
| FinalResponse.RefusedResponse | diag-client-lib/appl/src/diag-client/dcm/conversation/dm_conversation.cpp:391-407 | Every run with whole frames: a response that is refused closes the channel, leaves the timer running, and the waiting call times out wherever it stands |
| FinalResponse.MissReachable | diag-client-lib/appl/src/diag-client/dcm/conversation/dm_conversation.cpp:236-251 | Runs in which a call waits and is about to overwrite the record, to start its first timer, or to act on an expiry |
| FinalResponse.MissAfterPendingReachable | diag-client-lib/appl/src/diag-client/dcm/conversation/dm_conversation.cpp:257-263 | A run in which a call waits and is about to overwrite the record with the decision for P2*, after a pending answer |
| DmConversation.DmConversation.SendDiagnosticRequest | diag-client-lib/appl/src/diag-client/dcm/conversation/dm_conversation.cpp:215-337 | Sequential grain, every timed list of frames: the loop of timers, callbacks and states gives exactly the outcome, end time, channel, buffer and remaining frames of the recursive window function, waits for P2* once per pending answer and at most 2000 + P2 + k P2* in all; refused calls change nothing |
| DmConversation.DmConversation.AwaitFinalResponse | diag-client-lib/appl/src/diag-client/dcm/conversation/dm_conversation.cpp:236-322 | The nested P2/P2* loop ends in idle with exactly the answer of a P2 window reopened as P2* by each pending answer |
| DmConversation.DmConversation.StartResponseTimer | diag-client-lib/lib/utility-support/utility/sync_timer.h:101-129 | One wait with frames handled meanwhile: timeout exactly when the window closes first, else a stored final response or a pending answer with the window still to run |
| DmConversation.DmConversation.StartAckTimer | diag-client-lib/lib/utility-support/utility/sync_timer.h:101-129 | One acknowledgement wait: the first acknowledgement before expiry decides, responses before it change nothing |
| DmConversation.DmConversation.HandleDiagnosticRequest | diag-client-lib/lib/doip-client/channel/tcp_channel/doip_diagnostic_message_handler.cpp:493-555 | The handshake writes one well-formed request and ends waiting for the response on success, idle otherwise; a busy channel is left alone |
| DmConversation.DmConversation.IndicateMessage | diag-client-lib/appl/src/diag-client/dcm/conversation/dm_conversation.cpp:348-409 | Empty, too long, pending and final payloads, with the effect of each on state, buffer length and timer |
| DmConversation.DmConversation.ProcessDiagnosticMessageResponse | diag-client-lib/lib/doip-client/channel/tcp_channel/doip_diagnostic_message_handler.cpp:452-491 | The same effect as the reader steps taken together; a response outside the waiting state has none |
| DmConversation.DmConversation.ProcessDiagnosticAckMessageResponse | diag-client-lib/lib/doip-client/channel/tcp_channel/doip_diagnostic_message_handler.cpp:418-450 | An acknowledgement moves a waiting channel once and cancels its timer; any other is ignored |
| DmConversation.DmConversation.HandleFrame | diag-client-lib/lib/doip-client/channel/tcp_channel/doip_tcp_channel_handler.cpp:192-212 | The methods of the class change the shared state as the steps of the reader do |
| DmConversation.DmConversation.CopyToBuffer | diag-client-lib/lib/doip-client/channel/tcp_channel/doip_diagnostic_message_handler.cpp:471-473 | After the copy the buffer is the payload |
| DmConversation.DmConversation.Transmit | diag-client-lib/lib/doip-client/channel/tcp_channel/doip_tcp_channel.cpp:79-93 | Without routing activation nothing is sent and nothing changes |
| ResponseWindow.AwaitResponse | diag-client-lib/appl/src/diag-client/dcm/conversation/dm_conversation.cpp:267-322 | A returned response is the first frame of the list that is neither an acknowledgement nor a pending answer; exactly the frames before it were consumed and the pending count is theirs |
| ResponseWindow.ExchangeExactly | diag-client-lib/appl/src/diag-client/dcm/conversation/dm_conversation.cpp:215-337 | For every timed list: a request returns a response if and only if its first acknowledgement is 0x8002 with code 0x00 and handled within 2000 ms, and then, with nothing but acknowledgements and 7F xx 78 before it, each handled before the end of its window, comes a response that fits and is not 7F xx 78, before the end of its own; it returns that one |
| ResponseWindow.AckTaken | diag-client-lib/lib/doip-client/channel/tcp_channel/doip_diagnostic_message_handler.cpp:498-538 | The first acknowledgement handled before the expiry decides, at the time it is handled: 0x8002 with code 0x00 passes, any other refuses |
| ResponseWindow.FinalTaken | diag-client-lib/appl/src/diag-client/dcm/conversation/dm_conversation.cpp:267-322 | A final response that meets its window is returned byte for byte, at the time it is handled |
| ResponseWindow.ExchangeBound | diag-client-lib/lib/doip-client/channel/tcp_channel/doip_diagnostic_message_handler.cpp:63 | A request ends between its start and 2000 + P2 + k P2* milliseconds later |
| ResponseWindow.AwaitBound | diag-client-lib/appl/src/diag-client/dcm/conversation/dm_conversation.cpp:279-310 | A window ends by its expiry and one P2* more per pending answer |
| ResponseWindow.ExchangeChannel | diag-client-lib/appl/src/diag-client/dcm/conversation/dm_conversation.cpp:291-293 | Only a response timeout can leave the channel waiting; no failure touches the buffer |
| SyncTimer.SyncTimer.Start | diag-client-lib/lib/utility-support/utility/sync_timer.h:101-129 | For every sequence of cancellations, wake-ups and clock readings the wait ends at the first look that is decisive, with its conclusion, and is blocked if there is none |
| SyncTimer.SyncTimer.WaitForTimeout | diag-client-lib/lib/utility-support/utility/sync_timer.h:70-78 | Exactly one callback once the wait has ended and none before; the timeout callback if and only if the wait ended by expiry |
| SyncTimer.Contract | diag-client-lib/lib/utility-support/utility/sync_timer.h:106-127 | The timeout callback runs if and only if the look is at or after expiry; the cancel callback only for a cancellation issued after the start, seen before expiry, at the first look after it |
| SyncTimer.OutcomeExactly | diag-client-lib/lib/utility-support/utility/sync_timer.h:101-129 | For every sequence of events, the first look that comes at or after expiry or after a cancellation ends the wait: by timeout if and only if it is not before expiry, by cancellation if and only if it is, and the wait goes on if and only if there is none |
| StateContext.StateContext.TransitionTo | diag-client-lib/lib/utility-support/utility/state.h:70-102 | Makes a registered state active, keeps the active one for an unregistered key, and never touches the registry |
| StateContext.StateContext.AddState | diag-client-lib/lib/utility-support/utility/state.h:58-61 | The first object registered under a key stays |
| TcpChannel.RoutingActivationHandler.HandleRoutingActivationRequest | diag-client-lib/lib/doip-client/channel/tcp_channel/doip_routing_activation_handler.cpp:387-443 | Every schedule of responses around the write, transition, timer start, wait and callback: from idle it ends as (ok, successful), (timeout, idle) or (failed, idle), and as ok if and only if the first response after the timer start and before expiry has code 0x10 and none came earlier; the fifteen bytes sent, source address included; from any other state neither state nor wire changes |
| TcpChannel.RoutingActivationHandler.ProcessResponse | diag-client-lib/lib/doip-client/channel/tcp_channel/doip_routing_activation_handler.cpp:345-385 | Only an awaited response counts, only code 0x10 activates |
| TcpChannel.RoutingActivationHandler.Stop | diag-client-lib/lib/doip-client/channel/tcp_channel/doip_routing_activation_handler.cpp:288-297 | Back to idle with the timer cancelled |
| TcpChannel.DiagnosticMessageHandler.HandleDiagnosticRequest | diag-client-lib/lib/doip-client/channel/tcp_channel/doip_diagnostic_message_handler.cpp:493-555 | Every schedule of frames: from idle it ends as (ok, waiting for response) or (any other result, idle), with the exact schedules for each result: ok needs a first acknowledgement 0x8002 with code 0x00 after the timer start and before its expiry; from any other state neither state nor wire changes |
| TcpChannel.DiagnosticMessageHandler.ProcessFrame | diag-client-lib/lib/doip-client/channel/tcp_channel/doip_diagnostic_message_handler.cpp:418-491 | The channel transition of one frame |
| TcpChannel.DiagnosticMessageHandler.Stop | diag-client-lib/lib/doip-client/channel/tcp_channel/doip_diagnostic_message_handler.cpp:349-358 | Back to idle with the timer cancelled |
| TcpChannel.AwaitingAck | diag-client-lib/lib/doip-client/channel/tcp_channel/doip_diagnostic_message_handler.cpp:418-450 | While an acknowledgement is awaited the first one alone decides, whatever other frames come |
| TcpChannel.HandshakeExactly | diag-client-lib/lib/doip-client/channel/tcp_channel/doip_diagnostic_message_handler.cpp:493-555 | A handshake passes if and only if its timer does not expire, no acknowledgement came before its start, and the first one after it is 0x8002 with code 0x00 |
| TcpChannel.AfterFrameIsHandling | diag-client-lib/lib/doip-client/channel/tcp_channel/doip_diagnostic_message_handler.cpp:418-491 | The channel transition of a frame is the one that all steps of the reader on it make |
| TcpChannel.TcpClient.ConnectToHost | diag-client-lib/lib/boost-support/src/boost-support/client/tcp/tcp_client.cpp:124-141 | Succeeds if and only if the client ends connected; a connected client stays so |
| TcpChannel.TcpClient.DisconnectFromHost | diag-client-lib/lib/boost-support/src/boost-support/client/tcp/tcp_client.cpp:147-161 | Succeeds if and only if the client was connected, which it then is not |
| TcpChannel.TcpClient.Transmit | diag-client-lib/lib/boost-support/src/boost-support/client/tcp/tcp_client.cpp:177-190 | A frame reaches the socket if and only if the client is connected |
| DoipTcpChannel.RoutingGate | diag-client-lib/lib/doip-client/channel/tcp_channel/doip_tcp_channel.cpp:79-93 | Every run of calls and frames: each diagnostic request handed to the socket is preceded by an accepted activation with code 0x10 and no disconnect or stop in between |
| DoipTcpChannel.BetweenCalls | diag-client-lib/lib/doip-client/channel/tcp_channel/doip_tcp_channel.cpp:62-73 | Between calls routing is idle or activated, activated implies connected, only an activated channel can wait for a response, so a disconnect always leaves the channel free |
| DoipTcpChannel.DoipTcpChannel.ConnectToHost | diag-client-lib/lib/doip-client/channel/tcp_channel/doip_tcp_channel.cpp:41-60 | Moves the channel as the run model says; the result for every case, ok if and only if this call activated routing, so a second connect fails |
| DoipTcpChannel.DoipTcpChannel.DisconnectFromHost | diag-client-lib/lib/doip-client/channel/tcp_channel/doip_tcp_channel.cpp:62-73 | Moves the channel as the run model says; ok if and only if it was connected |
| DoipTcpChannel.DoipTcpChannel.Transmit | diag-client-lib/lib/doip-client/channel/tcp_channel/doip_tcp_channel.cpp:79-93 | Failed without routing activation, busy on a channel that is not idle, failed without connection or write, else what the handshake gives; ok if and only if the channel goes from idle to waiting; the wire gains one well-formed request exactly when the log does |
| DoipTcpChannel.DoipTcpChannel.Stop | diag-client-lib/lib/doip-client/channel/tcp_channel/doip_tcp_channel.cpp:34-37 | Both handlers back to idle |
| DoipTcpChannel.DoipTcpChannel.HandleMessage | diag-client-lib/lib/doip-client/channel/tcp_channel/doip_tcp_channel_handler.cpp:99-110 | The bytes of a frame are decoded, checked and handled by exactly one handler, or ignored |
| ReaderWorker.ShutdownCompletes | diag-client-lib/lib/boost-support/src/boost-support/connection/tcp/tcp_connection.h:138-147 | Every interleaving: once the controller joins, the worker has left its loop after five of its own steps, whatever else happens |
| ReaderWorker.AtMostOneMoreRead | diag-client-lib/lib/boost-support/src/boost-support/connection/tcp/tcp_connection.h:122-131 | After the exit request at most one more read is begun |
| ReaderWorker.NoLostWakeUp | diag-client-lib/lib/boost-support/src/boost-support/connection/tcp/tcp_connection.h:123-125 | The worker never sleeps unnotified while it should run or exit, unless the controller is just about to notify it |
| ReaderWorker.ReadsGoOn | diag-client-lib/lib/boost-support/src/boost-support/connection/tcp/tcp_connection.h:122-131 | From any moment of any run at which the connection is up, while the controller is idle and reads succeed, every seven steps of the worker end at least one more read |
| ReaderWorker.ReadsOnlyWhileRunning | diag-client-lib/lib/boost-support/src/boost-support/connection/tcp/tcp_connection.h:126 | A read is decided on only while the worker should run and not exit |
| ReaderWorker.StopsUntilConnect | diag-client-lib/lib/boost-support/src/boost-support/connection/tcp/tcp_connection.h:122-131 | A worker that should not run and is not in a read ends no read on any continuation until the next connect |
| ReaderWorker.StopsReading | diag-client-lib/lib/boost-support/src/boost-support/connection/tcp/tcp_connection.h:174-180 | A failed read stops the worker; a disconnect does at once if and only if no read is due or under way |
| ReaderWorker.CallsComplete | diag-client-lib/lib/boost-support/src/boost-support/connection/tcp/tcp_connection.h:138-168 | On every run, from its change of the flags three steps of the controller end a connect with the connection up and the worker awake, a disconnect with it down, and a shutdown with the exit request set |
| ReaderWorker.InvHolds | diag-client-lib/lib/boost-support/src/boost-support/connection/tcp/tcp_connection.h:120-180 | Mutual exclusion and the facts above hold in every reachable state |
| ReaderWorker.NoDeadlock | diag-client-lib/lib/boost-support/src/boost-support/connection/tcp/tcp_connection.h:115-180 | Somebody can always move until the worker has finished and the controller joins it |
| TcpSocket.TcpSocket.Read | diag-client-lib/lib/boost-support/src/boost-support/socket/tcp/tcp_socket.cpp:150-203 | Nothing on a short header or a zero length; else the header and as many bytes as it announces, filled up with zeroes if the peer closes |
| TcpSocket.TcpConnection.ReadConnection | diag-client-lib/lib/boost-support/src/boost-support/connection/tcp/tcp_connection.h:122-131 | The frames handled on one connection are, after any number of reads, a prefix of the frames of the stream, and all of them once a read has failed |
| TcpSocket.TcpConnection.ReadMessage | diag-client-lib/lib/boost-support/src/boost-support/connection/tcp/tcp_connection.h:242-250 | Hands over exactly the next frame, or fails and hands over none |
| TcpSocket.FramesComeBack | diag-client-lib/lib/boost-support/src/boost-support/socket/tcp/tcp_socket.cpp:162-186 | Any list of well-formed frames comes back from its concatenation in order, followed by what the rest of the stream gives |
| TcpSocket.ZeroLengthStops | diag-client-lib/lib/boost-support/src/boost-support/socket/tcp/tcp_socket.cpp:170-191 | A zero-length header ends delivery after the frames before it, whatever follows |
| TcpSocket.CutStream | diag-client-lib/lib/boost-support/src/boost-support/socket/tcp/tcp_socket.cpp:172-186 | A stream cut inside a frame gives the frames before it, and the cut one zero-padded if and only if its header got through |
| DoipMessage.CreateGenericHeader | diag-client-lib/lib/doip-client/channel/tcp_channel/doip_diagnostic_message_handler.cpp:268-280 | The bytes 03 FC, then type and length most significant byte first; the decoder reads them back |
| DoipMessage.ComposeDiagnosticRequest | diag-client-lib/lib/doip-client/channel/tcp_channel/doip_diagnostic_message_handler.cpp:557-590 | The bytes 03 FC 80 01, the 32-bit truncation of the length, source, target and payload, for every payload; the decoder reads them back |
| DoipMessage.ComposeRoutingActivationRequest | diag-client-lib/lib/doip-client/channel/tcp_channel/doip_routing_activation_handler.cpp:450-481 | Type, length and source address read back, then activation type and reserved bytes zero |
| DoipMessage.DiagnosticRequestLength | diag-client-lib/lib/doip-client/channel/tcp_channel/doip_diagnostic_message_handler.cpp:563-568 | The length field counts the bytes after the header if and only if the payload has at most 0xFFFFFFFB bytes |
| DoipMessage.DiagnosticRequestVerdict | diag-client-lib/lib/doip-client/channel/tcp_channel/doip_tcp_channel_handler.cpp:116-161 | The header check accepts such a frame for 1 to 4092 payload bytes and dispatches the same payload; above that, code 0x03; empty, code 0x04 |
| DoipMessage.HeaderCheck | diag-client-lib/lib/doip-client/channel/tcp_channel/doip_tcp_channel_handler.cpp:116-190 | Exactly which messages pass and which are refused with codes 0x00, 0x01 and 0x03; code 0x02 is never produced |
| DoipMessage.DispatchExactly | diag-client-lib/lib/doip-client/channel/tcp_channel/doip_tcp_channel_handler.cpp:99-212 | By the bytes of a frame: which handler gets it, and with which code or payload |
| Bytes.U32RoundTrip | diag-client-lib/lib/doip-client/common/doip_message.cpp:17-22 | Splitting and joining a 32-bit field loses nothing |
| VehicleInfo.HexRoundTrip | diag-client-lib/appl/src/diag-client/dcm/conversation/vd_conversation.cpp:22-67 | Bytes to colon-separated hexadecimal text and back, for every length; the eight-bit character count is right if and only if there are at most 127 bytes |
| VehicleInfo.HexTextRoundTrip | diag-client-lib/appl/src/diag-client/dcm/conversation/vd_conversation.cpp:377-402 | Every well-formed lower-case text is reproduced from the bytes read off it |
| VehicleInfo.HexTextShape | diag-client-lib/appl/src/diag-client/dcm/conversation/vd_conversation.cpp:27-38 | The text of n > 0 bytes has 3n - 1 characters, two lower-case digits per byte and colons between |
| VehicleInfo.DigitCharacters | diag-client-lib/appl/src/diag-client/dcm/conversation/vd_conversation.cpp:29-35 | Digit v is written as character v of 0123456789abcdef and read from that and its upper-case form, from no other |
| VehicleInfo.ExtractHexScans | diag-client-lib/appl/src/diag-client/dcm/conversation/vd_conversation.cpp:60-65 | Each chunk, well-formed or not, gives what reading a hexadecimal number off a stream gives: spaces, a sign, digits as far as they go |
| VehicleInfo.ConvertToHexString | diag-client-lib/appl/src/diag-client/dcm/conversation/vd_conversation.cpp:22-40 | The loop with its removed last colon gives the text of the bytes up to the end of the range, which is cut to eight bits |
| VehicleInfo.SerializeEIDGIDFromString | diag-client-lib/appl/src/diag-client/dcm/conversation/vd_conversation.cpp:56-67 | The loop gives the bytes of the two-character chunks that start within the given size |
| VehicleInfo.ConvertToAsciiString | diag-client-lib/appl/src/diag-client/dcm/conversation/vd_conversation.cpp:42-54 | The bytes up to the end of the range, cut to eight bits, as characters; none if that is not after the start |
| VehicleInfo.SerializeVINFromString | diag-client-lib/appl/src/diag-client/dcm/conversation/vd_conversation.cpp:69-79 | The first characters as bytes |
| VehicleInfo.DeserializeVehicleInfoResponse | diag-client-lib/appl/src/diag-client/dcm/conversation/vd_conversation.cpp:343-371 | The record holds VIN, address, EID and GID of the payload at their offsets |
| VehicleInfo.AnnouncementFields | diag-client-lib/appl/src/diag-client/dcm/conversation/vd_conversation.cpp:343-371 | VIN from bytes 0 to 16, address from 17 and 18, EID from 19 to 24, GID from 25 to 30 |
| VehicleInfo.AnnouncementRoundTrip | diag-client-lib/appl/src/diag-client/dcm/conversation/vd_conversation.cpp:343-371 | Re-encoding a decoded announcement gives its first 31 bytes back |
| VehicleInfo.DecodeInjective | diag-client-lib/appl/src/diag-client/dcm/conversation/vd_conversation.cpp:343-371 | Announcements with the same record agree on their first 31 bytes |
| VdConversation.VdConversation.SendVehicleIdentificationRequest | diag-client-lib/appl/src/diag-client/dcm/conversation/vd_conversation.cpp:243-286 | Every schedule of datagrams: an accepted request puts one frame on the wire whose type matches the mode and whose length and body are the parsed value; the vehicles returned are strictly ascending, one per address accepted since the collection was cleared, each the first of its address; every announcement from the transition to waiting until the timeout has its address in the list, and nothing else is in it; every failure with its state |
| VdConversation.VdConversation.HandleIdentificationRequest | diag-client-lib/lib/doip-client/channel/udp_channel/doip_vehicle_identification_handler.cpp:285-323 | Any mode and value: from idle one frame made of them is sent, responses from before the write to the end of the wait are collected, later ones are not, and the handler ends idle; from any other state nothing happens |
| VdConversation.VdConversation.SendIdentificationRequest | diag-client-lib/lib/doip-client/channel/udp_channel/doip_vehicle_identification_handler.cpp:355-385 | Any mode and value: one frame goes out, which decodes to the type and length of the mode and to the value, or to no body for mode 0 |
| VdConversation.RequestOfProper | diag-client-lib/lib/doip-client/channel/udp_channel/doip_vehicle_identification_handler.cpp:161-182 | Such a frame is an identification request with a true length if and only if the mode is known and the value has the length of the mode |
| VdConversation.VdConversation.HandleMessageUnicast | diag-client-lib/lib/doip-client/channel/udp_channel/doip_udp_channel_handler.cpp:57-68 | A datagram is recorded if and only if it passes the header check while responses are awaited |
| VdConversation.UdpHeaderCheck | diag-client-lib/lib/doip-client/channel/udp_channel/doip_udp_channel_handler.cpp:83-139 | By the bytes of a datagram: accepted if and only if it opens with 03 FC or FF 00, has type 00 04 and a length of at most 33; else with which code it is refused |
| VdConversation.RecordsExactly | diag-client-lib/lib/doip-client/channel/udp_channel/doip_vehicle_identification_handler.cpp:325-353 | The records of a list of datagrams are those its announcements decode to, and no others |
| VdConversation.VdConversation.HandleMessage | diag-client-lib/appl/src/diag-client/dcm/conversation/vd_conversation.cpp:312-320 | The collection stays the first record per address |
| VdConversation.VdConversation.TakeVehicles | diag-client-lib/appl/src/diag-client/dcm/conversation/vd_conversation.cpp:265-280 | The list is handed over and the collection cleared, or no response is reported if and only if nothing was accepted |
| VdConversation.ListOf | diag-client-lib/appl/src/diag-client/dcm/conversation/vd_conversation.cpp:82-105 | The list is strictly ascending, complete, and holds the first record of each address |
| VdConversation.FirstWinsHoldsFirst | diag-client-lib/appl/src/diag-client/dcm/conversation/vd_conversation.cpp:312-320 | The collection has a key if and only if the address was accepted, with the first record that had it |
| VdConversation.VerifiedExactly | diag-client-lib/appl/src/diag-client/dcm/conversation/vd_conversation.cpp:322-341 | Exactly which request strings pass; a VIN is sent as it is if and only if it has 17 characters |
| VdConversation.EidTextRoundTrip | diag-client-lib/appl/src/diag-client/dcm/conversation/vd_conversation.cpp:377-402 | The text of a byte list, parsed as a request, gives the list back if and only if it has at most 127 bytes |
| VdConversation.EidIgnoresCase | diag-client-lib/appl/src/diag-client/dcm/conversation/vd_conversation.cpp:377-402 | A request with upper-case digits asks for the same bytes as its lower-case form |
| VdConversation.VerifiedProper | diag-client-lib/appl/src/diag-client/dcm/service/vd_message.cpp:17-25 | A verified request serializes to its mode and a value of the length that mode declares on the wire |
| VdConversation.RequestForAnnouncedEid | diag-client-lib/appl/src/diag-client/dcm/conversation/vd_conversation.cpp:377-402 | The EID text of any announcement is accepted as a request and asks for its six bytes |

## Left out

- Socket, TLS and asynchronous UDP I/O: a connect or write is a boolean the environment chooses, a stream is a byte sequence; errors of the second read beyond a closed peer, and a failing remote endpoint query after it, are not modelled.
- Logging, configuration, error domains and the wiring of managers, connections and threads.
- ConnectToDiagServer and DisconnectFromDiagServer: thin wrappers over the channel calls that are modelled.
- Vehicle announcements on the broadcast socket and alive check requests: received and ignored by the code.
- Restart after shutdown: the exit flag and the connection flag are never cleared by the code, and no run here starts again.
- Several application threads on one conversation, and a disconnect while a frame is being handled.
- That the response matches the service of the request: the code does not compare them.
- Real time in the fine and coarse grains: there a blocked timer may expire at any moment; time appears in the sequential grain, and as the sum of started timers in the blocking bound and in the loss of a response.
- Fairness of the scheduler: termination is a bound on moves together with the fact that a move is always possible.
- DmConversation.DmConversation.SendDiagnosticRequest: conversation and channel are one class here, with the branches of each source method in a method of its own, the timer flag inlined, and the activation of routing a parameter; the buffer is a field, and aliasing with the returned response is treated in the fine grain instead.
- DmConversation.DmConversation.StartResponseTimer: the timer object of `SyncTimer` is not called; its contract, a timeout exactly at expiry and a cancellation only if seen before, is what the wait does.
- SyncTimer.SyncTimer.Start: the exit flag of the timer is never set by the code and is not modelled.
- VdConversation.VdConversation.SendVehicleIdentificationRequest: conversation, handler and UDP channel are one class, and the header of the second layer is what the frame contract states.
- VehicleInfo.SerializeEIDGIDFromString: characters are ASCII bytes in the classic locale; a chunk of spaces leaves the variable unset in the source, which is a parameter here.
- VehicleInfo.ConvertToHexString: an empty range, where the source removes a character from an empty string, is excluded.
- TcpChannel.DiagnosticMessageHandler.ProcessFrame: states the channel's side of a response only; the conversation's side is stated by HandleEffect and by the class of the sequential grain.
- DoipTcpChannel.DoipTcpChannel.Stop: closing the socket and joining the reader, which it starts with, is modelled apart, as the shutdown of the worker; the connection flag is left as the code leaves it.
