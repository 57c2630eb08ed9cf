# A model of the ADS client

This project models the client for Beckhoff's ADS/AMS protocol and proves what its batching, its
concurrent request/reply protocol, its stream reader, its notification iterator, its symbol and type
decoder, its PLC telemetry decoder and its UDP messages promise.

| file | models |
|---|---|
| `Bytes.dfy` | bytes, little-endian integers, slices that readers advance, errors |
| `Ams.dfy` | AMS addresses and header, request frames, validation of replies |
| `ReplyBuffers.dfy` | `fixup_write_read_return_buffers` on real arrays |
| `Exchange.dfy` | `Client::communicate` as its caller sees it, distribution into result buffers |
| `SumUp.dfy` | the bytes of sum-up requests and how a server takes them apart |
| `MultiRequests.dfy` | `read_multi`, `write_multi`, `write_read_multi` end to end |
| `BatchServer.dfy` | a server that executes sub-requests one by one; batched calls against `read`, `write` and `write_read` |
| `PendingRequests.dfy` | callers, pending map, invoke ids and reader thread as a step system |
| `Reader.dfy` | `reader_work` on a byte stream |
| `Connection.dfy` | reader and callers together |
| `Notifications.dfy` | notification validator and sample iterator |
| `NotificationHandles.dfy` | adding and deleting notifications, the record of open handles and `Drop for Client` |
| `SymbolFormat.dfy` | symbol and type records, and what their decoder computes |
| `SymbolDecoder.dfy` | the decoder's loops, and compositionality of tables |
| `SymbolEncoding.dfy` | the wire format, and the round trip |
| `TaskInfo.dfy` | layout validation and decoding of PLC telemetry |
| `Udp.dfy` | builder, parser and getters of UDP messages |

`dafny verify dfyconfig.toml` checks everything.

## How the source is modelled

* Slices that a parser advances are sequences; each parser is a method with the source's loops, proved
  equal to a function, and the laws are lemmas about that function. Buffers that the source writes in
  place are arrays; exclusive borrows become the condition that arrays are distinct.
* A socket is what was written to it and a function that answers each frame (`Exchange.Socket`); threads and
  the server are parameters (`settle`, `Server`) or steps
  that may happen at any time (timeout, failed write, failed read, any incoming frame).
* A Rust panic is the error `Panic`. Arithmetic overflow is taken to panic, as in builds with overflow
  checks (array bounds of symbols, string lengths in UDP messages). `as u32` and `as u16` keep the low
  bits. `usize` has 64 bits.
* Text is its bytes, a GUID its 16 bytes, a duration its number of nanoseconds or milliseconds.

## Where the code does not do what one might expect

* Invoke ids wrap after 2^32 calls. Calls fewer than 2^32 apart never disturb each other
  (`WindowKeepsCallsApart`); `InsertReplacesIff` and `DiscardStealsIff` say exactly when they do, and
  `WrapAroundReplacesSender` is a run in which a waiting call silently loses its sender.
* A call whose socket write fails leaves its entry in the pending map. A late reply to it ends the
  connection, and nothing else leads to that error (`OnlyFailedWritesAreOrphaned`).
* A notification frame with fewer than four payload bytes panics the reader thread (`ReaderPanicsIff`
  says exactly which lists of frames do). Nothing is drained then, and calls without a timeout wait for
  good unless the wrapped counter takes their sender (`FrameStrandsCall`, `CrashStrandsCalls`); without
  such a crash no call is forgotten (`NoForgottenCall`, `WaitCanEnd`).
* A sum-up reply need only hold its own length field. Sub-requests whose results it does not reach keep
  the result they were made with, which is success (`ShortReplyAccepted`, `SuccessIff`,
  `AllAnsweredIff`). So notification handles that the server never gave out are recorded, and handles it
  never deleted are forgotten (`EmptyReplyConfirmsAll`); `ConcludesStatedIff` gives the exact condition,
  and as long as no sum-up reply was cut short the record is what the server confirmed
  (`Client.Valid`).
* A router message whose two length fields disagree is skipped by the inner one, and the reader goes on
  in the middle of the frame (`RouterMessageDesync`); `ConsumedExactlyIff` gives the exact condition.
* A batch drops the result field and the length field of each single answer, and pads reads with zeros.
  A request of a batch reports what the single request would iff `Agrees` holds (`BatchedAgreesIff`):
  for regular answers always, except that reads must not be short (`RegularAgreesIff`). A handler that
  reports its failure in the result field only fails singly and succeeds in a batch
  (`ResultFieldDropped`).
* A sub-reply of `write_read_multi` longer than its buffer panics the caller (`WriteReadMulti`), and so
  does an otherwise acceptable reply shorter than its result field (`ReplyPanicsIff`).
* Unsigned 64-bit enum values from 2^63 on are reported as negative numbers (`EnumValueBack`).
* Getters of a UDP message under construction return two length bytes in front of the data
  (`BuilderGetBytes`); those of a parsed message do not (`ParsedGetBytes`). Payloads of 64 KiB and more
  do not come back (`ComesBackIffItFits`).

## Model

| member | source | states |
|---|---|---|
| ReplyBuffers.ScanOffsets | src/client.rs:1497-1509 | the offset table holds prefix sums of buffer and reported lengths; fails iff some reported length exceeds its buffer |
| ReplyBuffers.MoveRun | src/client.rs:1534-1539 | an overlapping or cross-buffer copy moves exactly the named bytes and leaves the rest of the buffer |
| ReplyBuffers.LastBufferBefore | src/client.rs:1523-1527 | the buffer holding the last byte always exists and is the last one starting before it, also with empty buffers |
| ReplyBuffers.PullRun | src/client.rs:1531-1540 | one round brings bytes in place and destroys none that is still to be read |
| ReplyBuffers.PullIntoBuffer | src/client.rs:1523-1545 | the copying loop ends, stays in bounds, and leaves the request's own received bytes at the start of its buffer |
| ReplyBuffers.AlreadyInPlace | src/client.rs:1517-1521 | below an aligned request all data was received in place, so stopping early is right |
| ReplyBuffers.RepairOne | src/client.rs:1512-1546 | repairing request i disturbs neither repaired requests nor bytes that earlier requests need |
| ReplyBuffers.ReversePass | src/client.rs:1511-1546 | after the reverse pass every request has its data in place |
| ReplyBuffers.Fixup | src/client.rs:1496-1547 | succeeds iff every reported length fits; then each request holds exactly its stretch of the received bytes, otherwise nothing was written |
| Ams.HeaderRoundTrip | src/client.rs:1209-1235 | decoding the 38 header bytes returns the header |
| Ams.HeaderLayout | src/client.rs:1209-1235 | the place of every field in the 38 header bytes |
| Bytes.LittleEndian | src/client.rs:439-439 | numbers of two and four bytes have their low-order byte first |
| Bytes.LittleEndian64 | src/notif.rs:135-154 | and those of eight bytes their low-order half |
| Reader.HeaderBytes | src/client.rs:1209-1235 | encoding a decoded header returns the bytes |
| Ams.BuildRequest | src/client.rs:323-351 | the frame is header plus concatenated buffers, or an overflow error |
| Ams.FrameLengthsAreTrue | src/client.rs:324-340 | a frame is sent iff 32 plus the payload fits 32 bits; its decoded header has AMS command 0, true lengths, target and source, the command, flags 4, error 0 and the invoke id |
| Ams.AcceptedReply | src/client.rs:407-444 | a reply is accepted iff source, command, flags 5 and invoke id match and both error codes are zero |
| Ams.ReplyErrorIff | src/client.rs:431-444 | an ADS error is reported iff the reply belongs to the request and its header, or else its payload, carries exactly that code |
| Ams.ReplyRefusedIff | src/client.rs:407-429 | a reply of another source, command, kind or invoke id is refused for the first of these that differs |
| Ams.ReplyPanicsIff | src/client.rs:407-439 | the caller panics iff all header checks pass and the payload is shorter than the result field |
| Exchange.Distribute | src/client.rs:459-472 | result buffers are filled one after the other with the reply's data and keep what it does not reach |
| Exchange.PouredFlat | src/client.rs:459-472 | laid end to end, the buffers start with the data and keep their old rest |
| Exchange.PouredSplit | src/client.rs:459-472 | filling continues in the second group of buffers where the first is full |
| Exchange.PouredAt | src/client.rs:459-472 | for data of any length, a buffer receives what lies at its own offset as far as the data reaches and keeps the rest |
| Exchange.FilledIff | src/client.rs:459-472 | a buffer holds nothing but received data iff the data reaches its end |
| Exchange.Communicate | src/client.rs:316-476 | exactly the request's frame is written; success delivers exactly the validated reply's data and its length; on any error no result buffer changes |
| Exchange.ReceivedIff | src/client.rs:363-475 | success and the delivered data in terms of the answer's header fields and bytes, for every answer; a lost answer is its error |
| Exchange.OverlayAt | src/client.rs:463-472 | a result buffer takes the data byte by byte and keeps what lies beyond it |
| SumUp.NoTruncatedLength | src/client.rs:764-776 | once the checked sums fit, every four-byte length and count on the wire is the true one |
| SumUp.BatchHeaderDecodes | src/client.rs:842-851 | the batch header announces function code 0xF081, 0xF082 or 0xF083, the count, the reply size and the true size of everything behind it |
| SumUp.NotificationHeaders | src/client.rs:1011-1023 | the headers of notification sum-ups carry the codes 0xF085 and 0xF086, the count and both sizes |
| SumUp.SingleDecodes | src/client.rs:1306-1316 | a request header means to the server the operation's address, read size and data |
| SumUp.SingleFields | src/client.rs:1306-1388 | where group, offset, lengths and data lie in the bytes of a request |
| SumUp.BatchUnpacks | src/client.rs:908-932 | a server recovers from a batch exactly the payloads the operations would have sent singly, in order |
| MultiRequests.PouredResults | src/client.rs:459-472 | for a reply of any length, result header i takes what lies i header sizes into it, and the read buffers what follows all headers |
| MultiRequests.SuccessIff | src/client.rs:1354-1360 | a request made for the call reports success iff its result was confirmed or the reply ended before it |
| MultiRequests.AllAnsweredIff | src/client.rs:451-472 | every success is the server's word iff the reply reaches the last result code or breaks off inside it behind a non-zero byte |
| MultiRequests.ShortReplyAccepted | src/client.rs:451-455 | a reply that ends behind its length field is accepted by every sum-up call and answers no sub-request |
| MultiRequests.SendSumUp | src/client.rs:764-789 | the common part of all sum-up calls: exact payload, checked sums, a failed exchange changes nothing, a reply of any length is poured into the results |
| MultiRequests.SendBatch | src/client.rs:842-864 | overflowing sums send nothing; otherwise the exact batch is sent and the reply poured into the results |
| MultiRequests.ReplySizeAnnounced | src/client.rs:766-776 | the announced read length is the size of a reply whose sub-replies fill their buffers, result headers included |
| MultiRequests.ReadReports | src/client.rs:1321-1328 | data() by the result bytes: first the code, then the length |
| MultiRequests.WriteReadReports | src/client.rs:1393-1400 | the same for write/read requests |
| MultiRequests.ReplyReceived | src/client.rs:923-935 | after a reply of packed sub-replies the result headers are theirs and the read buffers start with all their data |
| MultiRequests.DataIsOwn | src/client.rs:1393-1399 | a request whose stretch is in place reports its own sub-reply |
| MultiRequests.WriteReadMulti | src/client.rs:908-940 | for every outcome of the exchange: nothing changes on failure; after a reply of any length headers hold what was sent of them, the call panics iff a length exceeds its buffer, and otherwise each request holds its own stretch; for packed sub-replies data() is exactly the own payload or error |
| MultiRequests.ReadMulti | src/client.rs:764-789 | for every outcome of the exchange what results and buffers hold; for padded sub-replies data() is the own data cut to its length field, or the own error |
| MultiRequests.WriteMulti | src/client.rs:842-864 | for every outcome of the exchange what the results hold, and when a fresh request reports success; for sub-replies request i reports the i-th code |
| BatchServer.BatchServed | src/test/mod.rs:283-343 | a server that dispatches on the function code and executes a batch ends in the state of the single operations in order and answers with their results, nested batches included |
| BatchServer.TotalIsTrue | src/test/mod.rs:306-342 | the length field of a batch reply is its true size whenever it fits a frame |
| BatchServer.BatchAnswered | src/test/mod.rs:113-149 | the whole round: request frame, execution, reply header and reply checks, for any command handlers |
| BatchServer.ReadOne | src/client.rs:685-702 | what a caller of read and write_read takes out of its buffer, for every answer; an error leaves the buffer alone |
| BatchServer.WriteOne | src/client.rs:792-801 | the outcome of a single write, for every answer |
| BatchServer.SingleFrameIs | src/client.rs:685-702 | reads, writes and write/reads go out as commands 2, 3 and 9 with the operation as payload |
| BatchServer.BatchFrameIs | src/client.rs:786-788 | a batch goes out as command 9 to its target |
| BatchServer.SingleOverflow | src/client.rs:685-690 | data too long for a length field is refused and nothing is sent |
| BatchServer.BatchOverflow | src/client.rs:766-776 | a batch whose sub-requests or reply are too long together is refused and nothing is sent |
| BatchServer.SingleServed | src/client.rs:407-475 | what a single request yields on the server, by error code, result field, length field and data of the answer |
| BatchServer.BatchedAgreesIff | src/test/mod.rs:295-343 | for every answer of a handler, a batched request reports what the single one does iff the answer agrees |
| BatchServer.RegularAgreesIff | src/test/mod.rs:295-343 | for regular answers that is always so, except that reads must not be short |
| BatchServer.ResultFieldDropped | src/test/mod.rs:310-343 | an answer whose result field alone reports an error fails singly and succeeds in a batch |
| BatchServer.BatchedReads | src/client.rs:764-789 | every request of read_multi reports what the single read in its place and state would iff the answer agrees |
| BatchServer.BatchedWrites | src/client.rs:842-864 | the same for write_multi |
| BatchServer.BatchedWriteReads | src/client.rs:908-940 | the same for write_read_multi, which panics iff an answer is longer than its buffer |
| PendingRequests.StepKeepsInv | src/client.rs:316-484 | every step of callers and reader keeps map, channels and call states consistent |
| PendingRequests.Reachable | src/client.rs:316-642 | the invariant holds in every state of every run |
| PendingRequests.RepliesReachTheirCall | src/client.rs:363-444 | a reply in a call's channel carries its invoke id; success implies matching source, command, flags and zero error codes |
| PendingRequests.ReceiveReturnsIff | src/client.rs:363-444 | a call that finds a reply returns success iff source, command and flags match and both error codes are zero, and an ADS error iff it carries that code |
| PendingRequests.FailureReturned | src/client.rs:366-404 | a call that finds an error, times out or finds its channel closed returns exactly that error after its discard |
| PendingRequests.SettleDelivers | src/client.rs:604-614 | a reply for a listening call is put into its channel as the only message and the reader goes on |
| PendingRequests.UnknownIdEndsConnection | src/client.rs:616-622 | the connection ends with an unknown invoke id iff no entry is filed under it, and the reader goes on iff a listening call is |
| PendingRequests.SuccessfulRun | src/client.rs:316-476 | a run in which a call succeeds |
| PendingRequests.TimedOutRun | src/client.rs:381-385 | a run in which a call times out and leaves no entry |
| PendingRequests.ResultsAreFinal | src/client.rs:353-405 | each call gets at most one result, and it never changes |
| PendingRequests.FrameSettlesOneCall | src/client.rs:600-623 | each frame settles at most one call |
| PendingRequests.SendersAreConserved | src/client.rs:353-405 | an inserted sender is in the map or has left it in exactly one way, and a reply is in the channel iff it was settled |
| PendingRequests.OnlyFailedWritesAreOrphaned | src/client.rs:605-614 | the reader finds a dropped receiver iff the call returned through the failed socket write |
| PendingRequests.LateReplyEndsConnection | src/client.rs:355-361 | a run in which a late reply to a failed write ends the connection |
| PendingRequests.DrainAnswersEveryone | src/client.rs:506-523 | after the drain the map is empty and every listening call has exactly the connection's error |
| PendingRequests.NoForgottenCall | src/client.rs:353-405 | a waiting call has a message, a closed channel, or an entry that a live reader will settle or drain |
| PendingRequests.CrashStrandsCalls | src/client.rs:624-626 | after a panic of the reader nothing reaches any call again, and a call without a timeout keeps waiting |
| PendingRequests.WaitCanEnd | src/client.rs:506-523 | unless the reader has crashed, every run can go on so that a waiting call leaves its wait |
| PendingRequests.StrandedCall | src/client.rs:624-626 | a run that leaves a call without a timeout waiting for a crashed reader |
| PendingRequests.IdsAgree | src/client.rs:321-321 | ids start at 1, wrap to 0 and agree iff tickets differ by a multiple of 2^32 |
| PendingRequests.InsertReplacesIff | src/client.rs:478-480 | an insert pushes out another call's sender iff that call is a multiple of 2^32 away and still in the map |
| PendingRequests.DiscardStealsIff | src/client.rs:482-484 | a discard removes another call's entry iff that call is a multiple of 2^32 away and still in the map |
| PendingRequests.WindowKeepsCallsApart | src/client.rs:321-405 | while live calls are within 2^32 of each other no sender is replaced or stolen and no channel closes unanswered |
| PendingRequests.WrapAroundReplacesSender | src/client.rs:321-355 | a run in which the wrapped counter makes an insert drop a waiting call's sender |
| PendingRequests.WrapAroundStealsEntry | src/client.rs:372-484 | and one in which the call that lost its sender then removes the entry of the new call |
| Reader.NextFrame | src/client.rs:539-640 | one iteration computes the frame's meaning and the stream behind it |
| Reader.ReaderWork | src/client.rs:535-642 | notifications and replies come out in arrival order, with the error that ends the loop |
| Reader.FrameRead | src/client.rs:539-575 | after a well-formed frame the reader is at the next frame and has seen exactly its header and payload |
| Reader.StaysInSync | src/client.rs:539-640 | on any concatenation of well-formed frames the loop handles exactly these frames in order until one aborts |
| Reader.EventsAreMeanings | src/client.rs:539-640 | the loop's events are the meanings of the frames in order, all of them unless one aborts |
| Reader.TakenInOrder | src/client.rs:600-640 | notifications and replies are taken from the events in their order |
| Reader.TakenFromOne | src/client.rs:600-640 | a notification or reply event counts exactly once, any other not at all |
| Reader.ConsumedExactlyIff | src/client.rs:545-572 | a frame is consumed exactly iff it is short or its length fields agree |
| Reader.RouterMessageDesync | src/client.rs:574-595 | disagreeing lengths end the connection except for AMS commands 1 and 0x1000 to 0x1002, which leave the reader inside the frame |
| Reader.SkippedOrInvalid | src/client.rs:574-598 | short frames, router messages and frames for others are skipped, frames of any other AMS command end the connection with it |
| Reader.NotificationNeverAborts | src/client.rs:624-640 | a notification of at least four bytes is passed on unchanged or skipped |
| Reader.TruncatedFrame | src/client.rs:539-572 | a frame that breaks off anywhere ends the stream |
| Reader.HandedOverIff | src/client.rs:574-604 | the frames that reach the pending map |
| Reader.NotifiedIff | src/client.rs:624-640 | the frames that reach the notification channel are those encoding stamps under a true length, unchanged |
| Reader.NotificationsAreValid | src/client.rs:634-639 | every notification passed on is a valid message |
| Reader.ReaderPanicsIff | src/client.rs:597-626 | on any list of frames the reader panics iff one is a consistent notification for this client with fewer than four payload bytes and nothing before it ended the connection |
| Connection.MessagesAreSettlements | src/client.rs:600-614 | what is in a call's channel is, by number, one of the replies the reader handed over |
| Connection.EndsAsTheStreamSays | src/client.rs:501-642 | in a joined run of callers and reader the error that ends the connection is the one that ends the reader's loop on its stream, and it crashes only where the loop panics |
| Connection.CrashedByFrame | src/client.rs:597-626 | a reader working on frames has crashed only because of a too short notification with nothing before it that ended the connection |
| Connection.FrameStrandsCall | src/client.rs:597-626 | each such frame leaves a call without a timeout stranded in some run |
| Connection.SuccessWasSent | src/client.rs:316-642 | for any frames sent and any interleaving, a successful call got one whole frame, sent by its target to this client with its own id and command |
| Notifications.New | src/notif.rs:72-100 | accepts exactly the messages that consist of the announced stamps and samples |
| Notifications.AcceptedIffEncoded | src/notif.rs:72-100 | accepted messages are exactly the encodings of stamp lists |
| Notifications.MessageLayout | src/notif.rs:72-100 | the place of every number in a message of one sample |
| Notifications.SampleAt | src/notif.rs:135-154 | the samples of a message are its entries in order, each with its handle, data and its stamp's time |
| Notifications.SampleIter.constructor | src/notif.rs:103-110 | the iterator starts with all samples of the message ahead |
| Notifications.SampleIter.Next | src/notif.rs:135-154 | delivers the next sample with its stamp's time, through empty stamps, never reading out of bounds; ends with no bytes left |
| Notifications.CollectSamples | src/notif.rs:60-68 | draining the iterator yields exactly the message's samples in order and terminates |
| Notifications.RoundTrip | src/notif.rs:72-154 | encoding any stamps, validating and iterating returns their samples |
| NotificationHandles.OpenIff | src/client.rs:975-1101 | a handle is open iff it was added and not deleted afterwards |
| NotificationHandles.DeviceAddrIdempotent | src/client.rs:303-308 | mapping the local address twice changes nothing more |
| NotificationHandles.DeviceAddrMaps | src/client.rs:303-308 | the port is kept and exactly the NetID 127.0.0.1.1.1 becomes the client's own |
| NotificationHandles.AddRecordFields | src/client.rs:1417-1427 | where a server finds the fields of an add request, true whenever they fit 32 bits |
| NotificationHandles.RecordsLength | src/client.rs:1012-1020 | the announced size of notification sum-ups is that of their sub-requests |
| NotificationHandles.AddReports | src/client.rs:1452-1458 | handle() by the result bytes: first the code, then the handle |
| NotificationHandles.DeleteReports | src/client.rs:1487-1493 | ensure() by the result bytes |
| NotificationHandles.HandleConcluded | src/client.rs:1033-1041 | a result of code zero and a handle counts as the addition of exactly that handle, in its place |
| NotificationHandles.DeletionConcluded | src/client.rs:1091-1099 | a result of code zero counts as the deletion of the handle that was sent |
| NotificationHandles.ErrorConcludesNothing | src/client.rs:1033-1041 | a result with another code counts as nothing |
| NotificationHandles.AddFrame | src/client.rs:979-993 | an add request is one frame of command 6 to the device with the record as payload |
| NotificationHandles.DeleteFrame | src/client.rs:1046-1051 | a delete request is one frame of command 7 to the device with the handle as payload |
| NotificationHandles.ConcludesMoreIff | src/client.rs:1033-1041 | the client concludes everything a reply states, and more exactly where a result that the reply does not reach reads as success |
| NotificationHandles.ConcludesStatedIff | src/client.rs:1033-1041 | with fresh requests it concludes exactly what the reply states iff the reply is complete or ends behind an error code of the last sub-request |
| NotificationHandles.EmptyReplyConfirmsAll | src/client.rs:1033-1041 | a reply without results makes it record handle 0 for every add and forget every handle to be deleted |
| NotificationHandles.RecordAt | src/test/mod.rs:344-364 | the server finds sub-request i where it looks for it |
| NotificationHandles.Client.AddNotification | src/client.rs:975-1001 | the request's frame is written; the handle of an accepted reply is recorded under the device address; a failure changes nothing |
| NotificationHandles.Client.Conclude | src/client.rs:1033-1041 | the record follows all results with code zero, in order, and equals what the server stated as long as no reply was cut short |
| NotificationHandles.Client.AddNotificationMulti | src/client.rs:1011-1042 | for a reply of any length: the frame written, what the results hold, what is recorded, what the reply stated; every handle the reply gives is handed out, recorded and logged in its place; a failed exchange changes nothing |
| NotificationHandles.Client.DeleteNotification | src/client.rs:1045-1061 | one delete request is written to the device; the delete is recorded iff its reply is accepted |
| NotificationHandles.Client.DeleteNotificationMulti | src/client.rs:1069-1101 | the same for deletes: handles confirmed as deleted leave the record |
| NotificationHandles.Client.Drop | src/client.rs:143-155 | exactly one delete request per open handle is written to the socket, to the address it was added under |
| SymbolDecoder.ParseAttributes | src/symbol.rs:368-380 | the loop computes the attribute list and the rest, or the first error |
| SymbolDecoder.ParseEnumInfos | src/symbol.rs:382-413 | the loop computes the variants for every base type and size |
| SymbolDecoder.ParseMethodInfos | src/symbol.rs:415-429 | the loop computes the framed methods |
| SymbolDecoder.ParseRpcMethod | src/symbol.rs:431-470 | the bytes of any well-formed method decode to its name, return type, comment, parameters in order and flagged attributes |
| SymbolDecoder.ParseRpcMethodParameter | src/symbol.rs:472-500 | the bytes of any well-formed parameter decode to its name, type, size, kind, comment and flagged attributes |
| SymbolDecoder.ParseTypeFlags | src/symbol.rs:502-524 | adds exactly the sections whose flags are set |
| SymbolDecoder.ParseFieldAttributes | src/symbol.rs:526-541 | skips the other sections and returns the attributes |
| SymbolDecoder.DecodeTypeInfo | src/symbol.rs:553-631 | a record becomes a field appended to its parent, or a type with its sub-items as fields |
| SymbolDecoder.DecodeSubItems | src/symbol.rs:617-625 | every sub-item becomes a field, in order |
| SymbolDecoder.DecodeSymbolInfo | src/symbol.rs:660-704 | both table loops end; any well-formed upload decodes to its symbols in order and its types by name |
| SymbolDecoder.TypesDecodedFirst | src/symbol.rs:660-675 | an error in the type table is reported before one in the symbol table |
| SymbolDecoder.TablesCompose | src/symbol.rs:665-701 | a table that decodes can be continued by any bytes: its entries come first |
| SymbolDecoder.UploadsCompose | src/symbol.rs:660-704 | symbols of joined uploads are concatenated, the second type map overrides the first |
| SymbolEncoding.StrBack | src/symbol.rs:322-339 | a string up to the maximum length comes back |
| SymbolEncoding.StrBackIff | src/symbol.rs:322-339 | a string comes back iff it is no longer than 8196 bytes |
| SymbolEncoding.BoundBack | src/symbol.rs:578-582 | a lower bound and a count become both bounds, or a panic exactly when the upper one overflows |
| SymbolEncoding.AttributesBack | src/symbol.rs:368-380 | attribute lists come back |
| SymbolEncoding.ParameterBack | src/symbol.rs:472-500 | RPC parameters come back with kind and attributes |
| SymbolEncoding.MethodBack | src/symbol.rs:431-470 | RPC methods come back with parameters in order and attributes |
| SymbolEncoding.RecordBack | src/symbol.rs:553-582 | the common part of records comes back, array bounds included |
| SymbolEncoding.SectionsBack | src/symbol.rs:502-541 | optional sections come back, each present iff its flag is set |
| SymbolEncoding.SectionsByFlag | src/symbol.rs:502-524 | GUID, methods, attributes and variants are there iff bit 0x80, 0x800, 0x1000, 0x2000 is set |
| SymbolEncoding.SectionBytes | src/symbol.rs:502-524 | which bytes each flag adds, the copy mask of bit 0x200 included |
| SymbolEncoding.FieldBack | src/symbol.rs:584-600 | fields come back, without offset iff it was 0xFFFFFFFF |
| SymbolEncoding.TypeBack | src/symbol.rs:601-630 | whole types come back with all retained parts, fields in order, integer enum values as the integers that were sent |
| SymbolEncoding.TypeParts | src/symbol.rs:601-630 | every retained part of a type, and each field as decoded from its own bytes |
| SymbolEncoding.FieldParts | src/symbol.rs:584-600 | every retained part of a field, attributes iff bit 0x1000 is set |
| SymbolEncoding.ParameterParts | src/symbol.rs:472-500 | every retained part of a parameter, attributes iff bit 0x40 is set |
| SymbolEncoding.MethodParts | src/symbol.rs:431-470 | every retained part of a method, attributes iff bit 8 is set |
| SymbolEncoding.EnumParts | src/symbol.rs:382-413 | the variants of a type: names and integers in order |
| SymbolEncoding.SymbolParts | src/symbol.rs:677-698 | every retained part of a symbol |
| SymbolEncoding.RecordLayout | src/symbol.rs:553-582 | where the parts of a type or field record lie |
| SymbolEncoding.ParameterLayout | src/symbol.rs:472-500 | where the parts of a parameter lie |
| SymbolEncoding.MethodLayout | src/symbol.rs:431-470 | where the parts of a method lie |
| SymbolEncoding.SymbolLayout | src/symbol.rs:677-698 | where the parts of a symbol lie |
| SymbolEncoding.SmallLayouts | src/symbol.rs:368-413 | the bytes of attributes and variants |
| SymbolEncoding.BadEntries | src/symbol.rs:415-429 | entry sizes below 4 are refused or panic, those past the data panic |
| SymbolEncoding.OtherVersionRefused | src/symbol.rs:553-560 | records of another version are refused |
| SymbolEncoding.CutText | src/symbol.rs:322-339 | text that runs past the data is cut off there, text above the maximum is refused |
| SymbolEncoding.SymbolBack | src/symbol.rs:677-698 | symbols come back, whatever follows their type name |
| SymbolEncoding.UploadBack | src/symbol.rs:660-704 | whole uploads come back: symbols in order, each type name bound to its last type |
| SymbolEncoding.IntBack | src/symbol.rs:391-409 | integers of every base type and size come back from their two's complement bytes |
| SymbolEncoding.EnumValueBack | src/symbol.rs:391-409 | an integer enum value comes back as itself iff it is not an unsigned 64-bit one from 2^63 on |
| SymbolEncoding.BaseTypes | src/symbol.rs:391-409 | the same bytes read under every base type |
| SymbolEncoding.EnumValueOddSize | src/symbol.rs:402-408 | for other base types, sizes other than 1, 2, 4 and 8 give -99 |
| SymbolEncoding.KindByBits | src/symbol.rs:278-285 | bit 0 means input, bit 1 output, both in-out |
| SymbolEncoding.TwoFieldStruct | src/test/test_symbol.rs:71-140 | the struct of the decoder's test, for any names, is well formed and decodes to its two fields |
| TaskInfo.LayoutAcceptedIff | src/task_info.rs:58-111 | a layout is accepted iff each of the eleven documented fields is declared with its offset, size and base type, by the first field of its name, and a name field fits |
| TaskInfo.DecodeTask | src/task_info.rs:316-355 | decodes an entry iff it holds the prefix and the name field |
| TaskInfo.UntilNullIs | src/task_info.rs:330-336 | the name is the longest prefix without a null byte |
| TaskInfo.DecodeChunks | src/task_info.rs:283-305 | one decoded value per entry, failing only if an index leaves the 32-bit range |
| TaskInfo.DecodeTasks | src/task_info.rs:224-305 | with accepted metadata a buffer of the declared size always decodes into last-first+1 entries with indices first..last, each value being the field of its name |
| TaskInfo.CursorAgreesWithMetadata | src/task_info.rs:58-111 | the sequential cursor reads each field at its metadata-declared offset |
| TaskInfo.FindIff | src/task_info.rs:77-81 | a lookup returns the first field of the name |
| TaskInfo.ReaderMadeIff | src/task_info.rs:224-241 | for a validated layout a reader is made iff ordered bounds describe a symbol of admissible size; the overflow checks never decide |
| Udp.Message.constructor | src/udp.rs:53-64 | a new message is the encoding of no items |
| Udp.Message.AddBytes | src/udp.rs:110-117 | the message becomes the encoding of one more item, count included |
| Udp.Message.AddStr | src/udp.rs:120-129 | the same for text and its null, unless the 16-bit length overflows |
| Udp.Message.AddU32 | src/udp.rs:132-139 | the same for a number |
| Udp.ParseInternal | src/udp.rs:78-107 | the loop computes the items, or the header's error |
| Udp.AcceptedHeader | src/udp.rs:78-92 | a message is accepted only with the magic number, invoke id zero and the service asked for |
| Udp.RefusedHeader | src/udp.rs:78-92 | any other header is refused for its first wrong number |
| Udp.OtherServiceRefused | src/udp.rs:88-91 | a message of one service is refused by the parser of every other |
| Udp.TailOfItems | src/udp.rs:93-107 | one byte behind the items is ignored, two or three end the data, an item that claims too much panics |
| Udp.MessageLayout | src/udp.rs:53-64 | the place of every number in a message |
| Udp.BuiltParsesBack | src/udp.rs:78-170 | parsing a built message returns tags in order, ranges selecting the payloads, the source address and the count |
| Udp.ComesBackIffItFits | src/udp.rs:110-117 | a message comes back iff every payload fits 16 bits |
| Udp.ParsedGetBytes | src/udp.rs:141-154 | on a parsed message get_bytes returns the first payload of the tag |
| Udp.FirstPayloadIs | src/udp.rs:141-148 | a getter looks at the first item of the tag, and finds none iff no item has it |
| Udp.ParsedGetters | src/udp.rs:156-165 | get_u32 and get_str return what add_u32 and add_str put in, nothing without the tag or four bytes, and panic on empty text |
| Udp.BuilderGetBytes | src/udp.rs:110-154 | on a message under construction get_bytes returns two extra bytes in front |

## Left out

- Connecting, source address selection, port open and close messages, real time: input and output.
- Poisoned locks: every panic of the model happens outside the critical sections.
- Read and write errors of the socket other than its end: a joined run (`Connection`) ends with its stream.
- The meaning of notification attributes: `AddNotifRequest` truncates durations and lengths without a guard, as the model does, and nothing is claimed about what a server makes of them.
- Calls of `add_notification` that run concurrently: the record is modelled for calls one after the other.
- UTF-8 and UTF-16 conversion, GUID text, `utilisation`: library and floating-point behaviour.
- Enum values of floating-point base types: `FloatToInt` computes the conversion, nothing is proved about it.
- Field records with sub-items of their own: the decoder does not skip them, and the encoder writes none.
- Symbol comments, GUIDs and attributes: the decoder skips them and they are arbitrary trailing bytes in the model.
- Memory exhaustion by announced sizes (`Vec::with_capacity`, buffers for announced lengths).
- src/file.rs, `symbol::Handle`, `get_state`, `get_info`, `write_control`, text forms of addresses and states: thin wrappers and tables that would only add easy members.
