# waltap, verified

A Dafny model of waltap's two programs and proofs about them: the change-data-capture pipeline, which streams a
PostgreSQL replication slot into sinks, and the read/write-split proxy, which speaks the PostgreSQL wire protocol to
clients. `dafny verify dfyconfig.toml` checks everything.

## The pipeline

`Decoder` and `StreamLoop` model `processMessage` and `messageLoop`: a class whose methods update the relation cache,
the current transaction and the loop's positions, driven by one *tick* per iteration that carries the clock, the network
and the handler's answer. A crash is the end of the ticks. Panics (a tuple wider than its relation, an empty CopyData)
are modelled as exits, because the deferred final ack runs on them too. `LoopRuns` tells a run from its ticks alone:
which tick ends it and how, what it has received until then, and every position it reports.

The server is a set of transactions and a confirmed position. From that position it sends, whole and in any order, every
transaction whose commit lies at or past it, with the Relation messages each row needs; it may take or miss any ack. WAL
positions of rows need not increase from message to message, and Relation messages may carry any position.

What the sink contract (`internal/sink/sink.go`, lines 43-45) and `docs/architecture.md`, lines 341-345, promise is: a
failing event's LSN is not acknowledged, and no event is lost. The code advances its position before it processes
(`internal/cdc/stream.go`, line 233) and its deferred ack also runs after a processing error (lines 168-179). The
results:

* The first promise is never kept: after any processing error, some ack of the run lies past the failing message
  (`FailureIsAcknowledged`). In the contract's order it is kept (`ContractSparesFailure`).
* The second promise holds over every history of runs, crashes and replays, in either order, for streams that are `Safe`
  for that order (`AtLeastOnce`), and with RetrySink and the dead-letter queue behind the handler
  (`DeliveredOrDeadLettered`).
* `Safe` is exact, for the acks (`SafeIffEveryRunSafe`) and for the events (`SafeIffNothingLost`): the contract's order
  needs every position held *before* a matching row to lie below that row's commit; the source's order needs the same of
  the row's own end, which is strictly more (`ContractAsksLess`). Positions are message starts plus message lengths, so
  a row whose message is longer than the WAL up to its commit breaks it: four timestamps as text are.
  `HandlerErrorLosesEvent` is such a trace: the event is refused, acknowledged and never sent again;
  `ContractKeepsEvent` is the same trace in the other order.
* Over a BatchSink the handler's nil only means *buffered*. On a safe stream an acknowledged event is always in a batch
  handed over, in one held by a flusher or in the buffer (`AckedIsAccountedFor`). On any decodable stream it can be in
  the buffer only, so that a crash loses it, if and only if, once some position held reaches its commit, the matching
  events processed from its row on can be fewer than a batch (`AckedWhileBuffered`). On a safe stream these are all
  matching events from the row to its commit (`AckedWhileBufferedIfSafe`); on an unsafe one fewer can be enough
  (`EarlyAckWhileBuffered`). When a batch's delivery fails, the events lost although their Deliver returned nil are all
  of the batch if a timer or Close flushed it, and all but the last if its size did: only the call that filled the batch
  returns the error (`FailingBatchLoses`).

`Batch` models `BatchSink` as a concurrent object: the critical sections of Deliver, of the timer callback and of Close
are methods of a class; around them any interleaving of timers firing, callbacks running (stale ones too), batches being
handed over outside the lock and time passing. A timer's own callback never flushes before maxWait
(`OwnFlushIsNotEarly`), a stale one can (`StaleFlushIsEarly`). Close can be ready to close the inner sink while a timer's batch is
undelivered if and only if maxSize is at least 2, whatever maxWait (`CloseRacesFlusher`). `Retry` models the attempt
loop, the backoff and the dead-letter handler.

## The proxy

`Wire` holds the formats and their inverses as values, `Encoders` the buffer-filling encoders and the scanning parsers,
`Classifier` the comment stripper and the classification, `Session` the query loop, `Replies` what a client decodes from
the proxy's output. `Pinning` states the rule of `internal/proxy/proxy.go`, lines 40-42, as an automaton over SQL
keywords and compares:

* `PinnedAsTheRuleIff` gives the exact statements that are pinned as the rule says. The code reads the raw first token,
  knows four spellings of BEGIN and START, takes SAVEPOINT and RELEASE for the end of the transaction, does not know
  ABORT, and does not see a keyword with something glued to it (`BEGIN;`). `HowTheyPart` says what happens to every
  other statement. `RoutedAsTheRuleIff` does the same for the route: the code never sends more to the replica than the
  rule, but keeps on the primary the reads it does not see (`SELECT*`, or a COPY whose TO stands on a line of its own).
* `StatusIff` and `SessionStatus` give the exact backend behaviour under which the ReadyForQuery status is PostgreSQL's
  own. Three things break it. A BEGIN that fails outside a transaction leaves the proxy reporting a transaction that
  does not exist. A COMMIT or ROLLBACK that is refused leaves the proxy outside a transaction that PostgreSQL keeps,
  failed (`RefusedClose`). A failure found only while reading a result without columns is answered as success, because
  `rows.Err()` is looked at only when there are columns (`HiddenFailure`); so, while the first two have not happened,
  from the first failure in a transaction, hidden or not, to its close a reply says 'E' exactly when its own statement's
  failure is not hidden (`FailureLasts`).

A byte is an integer below 256; SQL text is the bytes read as characters.

## Model

| member | source | states |
|---|---|---|
| `Filters.NewFilter` | internal/cdc/filter.go:39-63 | the filter holds exactly the trimmed, non-empty, case-folded items of the two comma-separated lists |
| `Filters.SplitIsExact` | internal/cdc/filter.go:44 | splitting on commas loses nothing and leaves no comma |
| `Ascii.TrimSpaceIs` | internal/cdc/filter.go:45 | trimming leaves the text between the first and the last character that is no blank |
| `Ascii.FoldsCase` | internal/cdc/filter.go:45-58 | two texts fold to the same lower (or upper) case exactly when they differ in the case of letters only |
| `Filters.MatchMeaning` | internal/cdc/filter.go:66-88 | an event passes exactly when each list names nothing or names it in any case: its action, its table bare or schema-qualified |
| `Decoder.DecodeTuple` | internal/cdc/stream.go:332-363 | the loop builds the tuple's map; a nil tuple gives nil |
| `Decoder.TupleMapMeaning` | internal/cdc/stream.go:336-361 | a key has a value exactly when the last column of that name that carries one carries it: nulls, decoded values, raw text or a size note where the codec fails; unchanged TOAST columns and unknown kinds add no key |
| `Decoder.ProcessRefines` | internal/cdc/stream.go:243-329 | one step hands over exactly the event owed by the message history, succeeds exactly when the message is decodable and the handler takes it, and changes nothing on failure |
| `Decoder.OwedIsEvent` | internal/cdc/stream.go:266-329 | the event owed, field by field: action, schema and table of the latest Relation, xid and time of the open Begin, LSN, new row from the new tuple and old row from the old one, each absent exactly when its tuple is; none is owed exactly when the filter does not want it |
| `StreamLoop.Stream.ProcessMessage` | internal/cdc/stream.go:243-329 | the fields, the event handed over and the verdict are those of the decoder step |
| `StreamLoop.Stream.MessageLoop` | internal/cdc/stream.go:158-240 | the loop with its deferred ack computes the run function in the source's order |
| `LoopRuns.FirstEndDecides` | internal/cdc/stream.go:158-240 | from the ticks alone: the first tick that ends a run decides its exit, what it received and delivered, and every ack, the deferred one included |
| `LoopRuns.RunsOn` | internal/cdc/stream.go:181-239 | without such a tick the loop goes on, having received every message of the ticks and sent exactly their acks |
| `LoopRuns.RunningIff` | internal/cdc/stream.go:181-239 | a run goes on exactly when none of its ticks ends it |
| `LoopRuns.DueIs` | internal/cdc/stream.go:187 | a periodic ack is due exactly on a tick more than ten seconds after the last one, or the start, when the position has advanced since |
| `LoopRuns.DueIsSent` | internal/cdc/stream.go:187-194 | a due ack is sent, whatever comes after |
| `AckSafety.DeliveredIsOwed` | internal/cdc/stream.go:228-238 | in every run the accepted events are those owed by the messages processed, in order, through the latest earlier Relation and the open Begin |
| `AckSafety.AcksAsWritten` | internal/cdc/stream.go:168-238 | every periodic ack, keepalive reply and exit ack not following a processing error reports one past the last message processed without error |
| `AckSafety.AcksCoverProcessed` | internal/cdc/stream.go:395-403 | over messages that each start past the end of everything before, such an ack covers only processed messages |
| `AckSafety.ExitReportsEverything` | internal/cdc/stream.go:166-179 | every way out of the loop leaves an ack past the last position held |
| `AckSafety.FailureIsAcknowledged` | internal/cdc/stream.go:233-237 | as written, after any processing error some ack lies past the failing message |
| `AckSafety.ContractSparesFailure` | internal/sink/sink.go:43-45 | in the contract's order no ack passes a failing message that starts past everything before it |
| `AckSafety.SafeIffEveryRunSafe` | internal/cdc/stream.go:158-240 | for either order, no ack of any run passes an unprocessed matching row if and only if the stream is safe for that order |
| `AckSafety.RefusalWitness` | internal/cdc/stream.go:168-179 | for every decodable stream and matching row there is a run in which the handler refuses the row and the exit ack reports its end |
| `AckSafety.SpacedIsSafe` | internal/cdc/stream.go:233 | commits past the end of every earlier message make the stream safe in both orders |
| `History.RowReadAsServed` | internal/cdc/stream.go:250-263 | the decoder reads a row with the schema, xid and commit time the server gave it |
| `History.AtLeastOnce` | internal/sink/sink.go:43-45 | over every history of runs, crashes and whole-transaction replays whose streams are safe for the order, a matching event of a transaction below the confirmed position was accepted by the handler |
| `History.HandlerErrorLosesEvent` | internal/cdc/stream.go:233-237 | as written, a refused event can be acknowledged, undelivered and never sent again |
| `History.ContractKeepsEvent` | internal/sink/sink.go:43-45 | the same stream and ticks in the contract's order keep the transaction owed |
| `History.ContractAsksLess` | internal/sink/sink.go:43-45 | a stream safe in the source's order is safe in the contract's, and not the other way round |
| `History.SafeIffNothingLost` | internal/cdc/stream.go:158-240 | for a served, decodable stream whose rows are all still owed and owe distinct events: no life of the process loses a matching event of it if and only if it is safe for the order |
| `Retry.Jittered` | internal/sink/retry.go:113-114 | a jittered delay is half the delay plus jitter times the delay, truncated, and so between half and one and a half times the delay |
| `Retry.CappedIsDoubled` | internal/sink/retry.go:106-111 | the capped delay is the base at the first attempt and then twice the one before, up to the cap |
| `Retry.DelayBounds` | internal/sink/retry.go:106-114 | each wait is between half and one and a half times the doubled delay, up to truncation |
| `Retry.TotalWait` | internal/sink/retry.go:87-125 | the waits of k failed attempts total less than one and a half times the smaller of base times (2^k - 1) and k caps |
| `Retry.RetrySink.Deliver` | internal/sink/retry.go:84-130 | calls, waits, answer, callback use and what is parked, for every script of failures and cancellations |
| `Retry.DLQSink.Handle` | internal/sink/dlq.go:75-102 | nil exactly when the event and its error were appended as one entry and nothing else changed; on any other answer the file is as it was |
| `Retry.RetryPromise` | internal/sink/retry.go:84-130 | nil exactly when the inner sink accepted or exactly one entry was parked, never both; at most maxAttempts calls, until an acceptance or a cancellation; the callback once, exactly when all attempts failed uncancelled |
| `Retry.NoAttemptPanics` | internal/sink/dlq.go:77-81 | with the dead-letter callback, a call panics exactly when no attempt is allowed |
| `Batch.BatchSink.Deliver` | internal/sink/batch.go:75-126 | the critical section: context, buffer, timer and size trigger |
| `Batch.BatchSink.TimerCallback` | internal/sink/batch.go:89-108 | the critical section of a timer, stale or not; an empty batch is not handed over |
| `Batch.BatchSink.CloseSink` | internal/sink/batch.go:129-148 | the critical section of Close |
| `Batch.BatchSink.TakeBatchLocked` | internal/sink/batch.go:152-156 | the batch is the whole buffer, which becomes empty |
| `Batch.ExecKeepsInv` | internal/sink/batch.go:75-156 | every interleaving keeps conservation, sizes, single hand-over, timer coverage and the flush context of the first Deliver |
| `Batch.BatchesConserve` | internal/sink/batch.go:85-148 | batches in take order followed by the buffer are the accepted events; the buffer stays below maxSize, no batch is empty, exactly the size flushes are full |
| `Batch.EveryEventOnce` | internal/sink/batch.go:95-146 | in whatever order batches are handed over, each accepted event is exactly once handed over, held or buffered |
| `Batch.NoEventOutlivesMaxWait` | internal/sink/batch.go:24-26 | once due callbacks have run, no buffered event has waited for maxWait |
| `Batch.FlushStopsTimer` | internal/sink/batch.go:111-137 | right after a Size batch or a Close the timer that was named cannot fire and none is named; the batch carries the context of its call, or none for Close |
| `Batch.OneTimerArmed` | internal/sink/batch.go:84-134 | while no stale callback runs, no timer but the named one is armed, and none without a batch to flush |
| `Batch.OwnFlushIsNotEarly` | internal/sink/batch.go:24-26 | a timer's own callback flushes no earlier than maxWait after the first event of its batch |
| `Batch.StaleFlushIsEarly` | internal/sink/batch.go:89-117 | a timer that fired before the size trigger could stop it flushes an event that has only just come |
| `Batch.DoneForGood` | internal/sink/batch.go:89-108 | a timer that ran or was stopped never runs again |
| `Batch.QuietAfterClose` | internal/sink/batch.go:129-148 | after Close and without a later Deliver, nothing more is ever taken |
| `Batch.BuffersIff` | internal/sink/batch.go:75-126 | the last m events given to Deliver, all answered nil, can be in the buffer and nowhere else exactly when m is less than a batch |
| `Batch.FailingBatchLoses` | internal/sink/batch.go:89-146 | the calls that brought the events of a batch returned nil, all of them for a Time or Close batch, all but the last for a Size batch, which returns the batch's error |
| `Batch.CloseRacesFlusher` | internal/sink/batch.go:129-147 | some interleaving lets Close find nothing to flush while a timer's batch is undelivered if and only if maxSize is at least 2 |
| `Pipeline.RetryConserves` | internal/sink/retry.go:84-130 | events answered nil are split without loss or duplication between destination and dead-letter file |
| `Pipeline.DeliveredOrDeadLettered` | internal/sink/dlq.go:66-75 | over every history whose streams are safe for the order, a matching event of a transaction below the confirmed position was accepted by the destination or is in the dead-letter file |
| `Pipeline.AckedIsAccountedFor` | internal/sink/batch.go:71-126 | over a BatchSink and a safe stream an acknowledged event is handed over, held or buffered at every point |
| `Pipeline.AckedWhileBuffered` | internal/sink/batch.go:124-125 | on any decodable stream and in either order, an acknowledged event can be only in the buffer if and only if, once some position held reaches its commit, the matching events processed from its row on can be fewer than a batch |
| `Pipeline.AckedWhileBufferedIfSafe` | internal/sink/batch.go:124-125 | on a decodable and safe stream whose commit message ends at or past its commit: if and only if the matching events from its row to its commit are fewer than a batch |
| `Pipeline.EarlyAckWhileBuffered` | internal/sink/batch.go:124-125 | on an unsafe stream the first event of a transaction of two can be acknowledged while only in a buffer of two |
| `Wire.U32Inverse` | internal/proxy/proxy.go:420 | a 32-bit field reads back as the value modulo 2^32 |
| `Wire.FrameReadBack` | internal/proxy/proxy.go:573-589 | a frame is read back whole, whatever follows, exactly when its length fits the field |
| `Wire.ReadMessageExact` | internal/proxy/proxy.go:573-589 | a message is returned exactly when the input begins with a frame, and reading loses no byte |
| `Wire.CleanEndIff` | internal/proxy/proxy.go:573-589 | reading ends as on a clean close exactly before a message, or right after a header that announces more |
| `Wire.FramingRoundTrip` | internal/proxy/proxy.go:555-590 | reading any concatenation of frames until the end gives exactly those frames |
| `Wire.StartupReadBack` | internal/proxy/proxy.go:556-571 | a startup message is read back exactly when its length is at most 10000 |
| `Wire.DataRowRoundTrip` | internal/proxy/proxy.go:519-552 | decoding recovers the values, NULL apart from empty, exactly for fewer than 65536 values each shorter than 2^31 |
| `Wire.RowDescriptionRoundTrip` | internal/proxy/proxy.go:479-517 | decoding recovers the fields exactly for fewer than 65536 fields with NUL-free names |
| `Wire.CommandCompleteRoundTrip` | internal/proxy/proxy.go:467-477 | a command tag is read back exactly when it holds no NUL |
| `Wire.ErrorRoundTrip` | internal/proxy/proxy.go:441-465 | severity ERROR and the text of an error are read back exactly when the text holds no NUL |
| `Wire.ParameterStatusRoundTrip` | internal/proxy/proxy.go:415-431 | a parameter is read back exactly when neither its name nor its value holds a NUL |
| `Wire.QueryRoundTrip` | internal/proxy/proxy.go:593-606 | a Query's statement is recovered exactly when it holds no NUL |
| `Wire.ParseRoundTrip` | internal/proxy/proxy.go:608-624 | a Parse message's statement is recovered exactly when it holds no NUL |
| `Wire.ExtractElse` | internal/proxy/proxy.go:608-627 | a Parse message without any NUL is taken whole for its statement; messages other than Query and Parse have none |
| `Wire.StartupRoundTrip` | internal/proxy/proxy.go:343-380 | parsing a built parameter list stays in bounds and returns the last user and database |
| `Wire.StartupOverrunIff` | internal/proxy/proxy.go:350-371 | the parser slices out of range exactly when the parameters stop after a key: a last NUL after another byte, the number of NULs odd |
| `Wire.LoneKeyOverruns` | internal/proxy/proxy.go:350-371 | such messages exist: any non-empty key alone |
| `Encoders.Conn.ReadRawMessage` | internal/proxy/proxy.go:555-590 | the frame or the error, and what is left to read |
| `Encoders.SendReadyForQuery` | internal/proxy/proxy.go:433-439 | the bytes written are the ReadyForQuery frame |
| `Encoders.SendCommandComplete` | internal/proxy/proxy.go:467-477 | the filled buffer is the CommandComplete frame |
| `Encoders.SendParameterStatus` | internal/proxy/proxy.go:415-431 | the filled buffer is the ParameterStatus frame |
| `Encoders.SendError` | internal/proxy/proxy.go:441-465 | the filled buffer is the ErrorResponse frame |
| `Encoders.SendRowDescription` | internal/proxy/proxy.go:479-517 | the sized and filled buffer is the RowDescription frame, its position ending at the buffer's end |
| `Encoders.SendDataRow` | internal/proxy/proxy.go:519-552 | the sized and filled buffer is the DataRow frame, its position ending at the buffer's end |
| `Encoders.ExtractStatement` | internal/proxy/proxy.go:593-627 | the scans compute the extracted statement |
| `Encoders.ParseStartupParams` | internal/proxy/proxy.go:343-380 | the loop computes the user and database, or the out-of-range slice |
| `Classifier.StripLeadingComments` | internal/proxy/classifier.go:116-152 | the two loops compute the stripped text and end |
| `Classifier.BodySkipped` | internal/proxy/classifier.go:128-148 | from any depth the scan skips exactly a well-formed body and its closing mark |
| `Classifier.PrefixStripped` | internal/proxy/classifier.go:116-152 | any prefix of blanks, ended line comments and well-nested block comments is stripped away |
| `Classifier.ClosedIff` | internal/proxy/classifier.go:128-148 | the depth count finds the end of a comment exactly when a well-formed body and its closing mark stand in front |
| `Classifier.StripIsGrammatical` | internal/proxy/classifier.go:111-152 | what is stripped is always such a prefix, up to the result or up to a comment that no item of the grammar begins, of which at most one byte is left |
| `Classifier.StripSettles` | internal/proxy/classifier.go:116-152 | the result starts no comment and has no outer blanks; stripping is idempotent |
| `Classifier.FindFirstToken` | internal/proxy/classifier.go:102-109 | the text up to the first delimiter |
| `Classifier.CommentsDoNotMatter` | internal/proxy/classifier.go:39-77 | comments and blanks in front never change the classification |
| `Session.ClientSession.ExecuteAndRelay` | internal/proxy/proxy.go:288-338 | description, rows, completion and readiness are written in that order, up to the error returned |
| `Session.ClientSession.HandleQuery` | internal/proxy/proxy.go:214-275 | flags, pool and bytes written for a Query |
| `Session.ClientSession.Serve` | internal/proxy/proxy.go:184-281 | the flags and all bytes written are those of the session over the frames the client sent |
| `Pinning.TransactionIff` | internal/proxy/classifier.go:58-62 | a statement is taken for transaction control exactly when its keyword is BEGIN, START, COMMIT, END, ROLLBACK, SAVEPOINT or RELEASE with nothing glued to it |
| `Pinning.ReadIff` | internal/proxy/classifier.go:47-73 | it is taken for a read exactly when it is empty, its keyword is SELECT, SHOW, EXPLAIN, SET, RESET or DISCARD with nothing glued to it, or COPY with TO between two spaces after it |
| `Pinning.ReplicaIff` | internal/proxy/proxy.go:235-251 | exactly which statements go to the replica: those outside a transaction that are seen to read |
| `Pinning.RoutedAsTheRuleIff` | internal/proxy/proxy.go:235-251 | exactly which statements are routed as the rule says, in and out of a transaction |
| `Pinning.WritesStayOnPrimary` | internal/proxy/classifier.go:70-73 | no statement with a writing keyword ever goes to the replica |
| `Pinning.SelectsAreRead` | internal/proxy/classifier.go:54-56 | outside a transaction a SELECT with nothing glued to it goes to the replica |
| `Pinning.HowTheyPart` | internal/proxy/proxy.go:220-232 | what the flag does on every statement that is not handled as the rule says |
| `Pinning.PinnedAsTheRuleIff` | internal/proxy/proxy.go:218-232 | exactly which statements are pinned as the rule says |
| `Pinning.MixedCaseBegin` | internal/proxy/proxy.go:224 | a capitalised Begin is not |
| `Pinning.GluedEnd` | internal/proxy/classifier.go:104 | END with a semicolon glued to it is not |
| `Pinning.PlainSavepoint` | internal/proxy/proxy.go:228-231 | a savepoint is not |
| `Pinning.PlainAbort` | internal/proxy/classifier.go:61-62 | ABORT is not |
| `Pinning.SessionFollowsRule` | internal/proxy/proxy.go:40-42 | over every session of such statements the flag is the rule's, and the route too, but for reads that are not seen, which stay on the primary |
| `Pinning.NothingInsideReachesReplica` | internal/proxy/proxy.go:40-42 | nothing between a faithful opening statement and its close reaches the replica, whatever came before |
| `Pinning.FailedImpliesInTransaction` | internal/proxy/proxy.go:181-275 | in every session a failed transaction is a transaction |
| `Pinning.StatusIff` | internal/proxy/proxy.go:253-274 | in every state, exactly which fates of a statement are answered with PostgreSQL's status, and that they leave PostgreSQL's state |
| `Pinning.HiddenFailure` | internal/proxy/proxy.go:297-326 | a statement without columns that breaks in a transaction is answered as done and 'T' while PostgreSQL has failed the transaction |
| `Pinning.RefusedClose` | internal/proxy/proxy.go:228-231 | a closing statement that is refused is answered 'I' while PostgreSQL has failed the transaction |
| `Pinning.SessionStatus` | internal/proxy/proxy.go:253-274 | over every session of faithful statements, the first n replies all end with PostgreSQL's status if and only if the backend conforms on the first n requests |
| `Pinning.FailureLasts` | internal/proxy/proxy.go:265-273 | in a session of faithful statements in which so far no BEGIN failed outside a transaction and no close was refused: from the first failure in a transaction, hidden or not, to the close PostgreSQL's state is failed and a reply says 'E' exactly when its statement's failure is not hidden, 'T' otherwise |
| `Pinning.OtherMessagesSayIdle` | internal/proxy/proxy.go:276-280 | a message that is not a Query is answered with the right status exactly outside a transaction |
| `Pinning.FlagsComeFromQueries` | internal/proxy/proxy.go:184-281 | the flags of a session are those of its Query messages alone |
| `Pinning.FlagIsPinning` | internal/proxy/proxy.go:218-243 | the transaction flag depends on the statements only, not on the backend's answers |
| `Pinning.QueryTurnAt` | internal/proxy/proxy.go:184-275 | each Query of a session is answered as in the session of its Query messages alone |
| `Pinning.SessionReplicaIff` | internal/proxy/proxy.go:184-251 | in every client session, exactly which Query goes to the replica |
| `Pinning.SessionRoutes` | internal/proxy/proxy.go:184-251 | over every client session, other messages in between and any backend answers, each Query up to the first unfaithful one is routed and pinned as the rule says, but for reads that are not seen, which stay on the primary |
| `Pinning.ReplyShape` | internal/proxy/proxy.go:288-338 | every reply is (T D*)? C Z or (T D*)? E Z, with an error exactly when the statement was not executed and its failure is not hidden |
| `Pinning.ClientSeesOneReplyPerRequest` | internal/proxy/proxy.go:262-280 | a client that reads frames and cuts after each ReadyForQuery sees one reply per message before the first Terminate, in order, each of that shape |
| `Replies.QueryReadBack` | internal/proxy/proxy.go:288-338 | a client decodes the reply to a Query to the backend's own fields, rows in order, and tag (or SELECT 0) or error text, if and only if the message formats can carry them |
| `Replies.OtherReadBack` | internal/proxy/proxy.go:276-280 | a client decodes the reply to any other message to the refusal and the status 'I' |
| `Replies.ClientReadsEachAnswer` | internal/proxy/proxy.go:184-338 | over whole sessions the client finds for each message, in its place, that answer or refusal |
| `Ident.QuoteRoundTrip` | internal/cdc/snapshot.go:198-202 | a quoted name is read back with the text after it exactly when that text does not begin with a quote |
| `Ident.OnlyQuotedNames` | internal/cdc/snapshot.go:198-202 | the reader accepts nothing but quoted names |
| `Ident.QuoteInjective` | internal/cdc/snapshot.go:198-202 | different names are quoted differently |

## Left out

- LSNs and clocks are unbounded naturals: the wrap-around of a 64-bit LSN is not modelled.
- The column codecs of pgx are arbitrary functions that may fail; pglogrepl's parsing is abstract typed messages, and the text form of an LSN is its number.
- Connecting, creating slot and publication, `SetStartLSN`, snapshots and the handover from snapshot to stream.
- `Filter.TableList` and `truncateSQL`.
- Retry.Delay: floating-point rounding, negative durations and the conversion of a delay past 2^63 nanoseconds are not modelled; jitter is a real number below one.
- Retry.DLQSink.Handle: a failing write is taken to leave the file unchanged; the text of the errors and of the JSON lines is not modelled.
- What `DeliverBatch` does with a batch: the model ends where it is handed over and names the call, if any, that returns its answer.
- Session.ClientSession.Serve: starts after the handshake (SSL refusal, authentication, parameter status); writes succeed; a cancelled context is a shorter input.
- Pinning.StatusIff: an error of `pool.Query` is taken for the backend's refusal of the statement, not for a lost connection.
- Which pooled connection serves a transaction: a route is only primary or replica.
- SQL beyond the first keyword: functions with side effects, several statements in one string, ROLLBACK TO, AND CHAIN, PREPARE TRANSACTION.
- Whitespace and case mapping are ASCII's; Unicode spaces are not trimmed.
- Metrics, logging, the stdout, webhook and Kafka sinks, and the test servers.
