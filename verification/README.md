# Verification models for the game server and client

Dafny models of the stateful and parsing core of the repository, with proofs. One module models one
component; `dafny verify dfyconfig.toml` checks all of them.

## What is modelled

**Request completion.** `Http2Connection` and `HttpPool` are state machines whose steps are the
stretches of code no other thread can see half done: submitting under the mutex, the stream-close
callback, the final drain of the I/O thread, the priority queues, workers, h2 streams and the result
queue. `HostPort` is the port in a host string. `HttpPoolOverHttp2` runs both together. Theorems speak
about every run, that is every interleaving. The classes perform the same steps on fields.

**The audio ring.** `PcmRingBuffer` interleaves the producer's and the consumer's element copies, head
loads and head stores, with masked indices and heads that wrap at 2^64 (`Bits` holds the bit
operations). `AudioStream` is the partial-write loop and read_frames around it.

**Moderation.** `ModerationHeat` and `ContentModerator` show that trust credit never changes what is
enforced, and `HeatHistory` what heat, sentence and mute a history of messages leads to. `Utf8Bytes`,
`Utf8`, `SlurNormalizer`, `SlurFilter` and `MessageSample` cover the two decoders, the normalizer, the word filter and the truncation of samples. `WeightTables`, `WeightsFile` and
`LocalClassifier` go from the script that writes the classifier's weights through the loader to
inference.

**Parsers.** `ChunkedBody` (chunked transfer coding, with `Hexadecimal`), `ProxyProtocol` (with `FieldScanner`),
`PathParams` (route matching) and `TrustedProxyList` (CIDR matching and forwarded-for headers), each against an encoder or an independent
definition.

**Server state.** `RateLimiter`, `AssetCache`, `WsWorkerPool` (frame order per client) and
`ConfigReloader` (hot reload of characters and areas). `Strings` and `Common` hold what several
modules share.

Numbers are unbounded, and 64-bit and 32-bit arithmetic is written out where it wraps or is masked.
Heat, tokens and weights are reals.

## Where the code does less than it promises

Each of these is stated exactly, with an input that shows it and a condition under which it does not
happen.

- `HttpPool`: calling a null callback in poll throws, and so may any callback; the rest of the batch is then
  lost, and in drop_below the rest of what was dropped. Poll loses nothing if and only if every callback in
  its batch is non-null and none but the last throws, drop_below if and only if none but the last throws.
  Over whole runs, exactly the requests that some request handed over takes in this way can be lost.
- `HttpPool`: an exception ends a worker thread, and the process with it, when the completion callback of a
  streaming request throws, when a chunk callback throws something that is not a std::exception, and when get_h2
  calls std::stoi on a port it cannot read. The last takes a plain request and another one to the same host,
  whose HTTP/1.1 transfer succeeds first; `https://[::1]:8443` is such a host, since the first colon stands inside
  the brackets. Requests that contain none of these cases are safe in every run.
- `read_chunked_body`: chunk sizes 2^64-2 and 2^64-1 make `chunk_size + 2` wrap; then the body depends on
  how the stream arrived. It does not, if and only if decoding reaches no such size with more bytes behind it
  than the wrapped sum asks for.
- `read_chunked_body` drops what it received behind a message. It drops nothing if and only if a piece ends
  with the message.
- `AudioStream::cancel` does not stop a write whose test of the stop flag has passed; there is at most one.
- `AssetCache` subtracts the size an asset has when it is removed, not the one it had when it was added, and a
  cached image or mesh can change size. Its counter is the sum of the cached sizes if and only if none does;
  otherwise it misses exactly the growth, can wrap, and then every unpinned asset is evicted.
- `RateLimiter::allow` accepts a negative cost, which fills a bucket above its burst; without one the burst is a
  ceiling.
- `RateLimiter::sweep` is unobservable if and only if burst <= rate * max_idle.
- The action recorded (not enforced) for users exempt from heat is softened by trust credit; it is
  independent of credit if and only if the heat is not negative.
- `normalize` is idempotent if and only if the message has no fullwidth digit among 0 1 3 4 5 7 9.
- `next_power_of_2` gives zero for zero and above 2^63.
- Route parameters read back their values if and only if no later one has the same name.
- A forwarded-for header is safe from text put in front of it if and only if it holds a valid untrusted address.
- Reloading an unchanged character list moves a selection to a later character of the same name.

Where comments and code disagree the code is followed: `drop_below` drops the levels strictly below its
threshold, although its header says "at or below"; the exception list of the slur filter works per token.

## Model

| member | source | states |
|---|---|---|
| Http2Connection.StepAnswersWhatFallsDue | engine/net/Http2Connection.cpp:78-92 | every atomic step answers a request exactly as often as that step makes an answer to it due, so nothing is answered early, twice or not at all |
| Http2Connection.ControlPreserved | engine/net/Http2Connection.cpp:180-202 | mutual exclusion, the agreement of the stream table with the calls that registered in it, and `alive_` being false before the final drain hold after every step of every thread |
| Http2Connection.AnswersPreserved | engine/net/Http2Connection.cpp:326-344 | the number of answers to each request stays the number that is due, through every step |
| Http2Connection.InvHolds | engine/net/Http2Connection.cpp:326-375 | both invariants hold at every point of every interleaving of submitters, stream-close callbacks, GOAWAY, shutdown and the I/O thread |
| Http2Connection.AnsweredAtMostOnce | engine/net/Http2Connection.cpp:180-202 | in every interleaving a request gets its callback or promise at most once, and only after its submission has returned or is answered by it |
| Http2Connection.AnsweredExactlyOnceWhenFinished | engine/net/Http2Connection.cpp:326-344 | once io_loop has returned, the requests answered are exactly those whose submission has returned, each of them once, including submissions made later |
| Http2Connection.NothingRegisteredAfterDrain | engine/net/Http2Connection.cpp:326-344 | from the moment the final drain holds the mutex no stream is registered any more, in any interleaving, and after io_loop returns the table stays empty |
| Http2Connection.RegisteredIsAnswered | engine/net/Http2Connection.cpp:180-202 | a request that held a stream at any time has exactly one answer when io_loop has returned, whatever lay between |
| Http2Connection.DrainStep | engine/net/Http2Connection.cpp:326-344 | no step of any thread adds a stream while the final drain holds the mutex or after it |
| Http2Connection.OutcomeIff | engine/net/Http2Connection.cpp:78-92 | in every run the answers are, in order, exactly those some step gave a reason for: `stream error` with a code when a frame closed the request's stream with that code, a closed connection when a dead connection was handed the request or the drain found it, a failed submission when the session refused it |
| Http2Connection.AnswerIsFinal | engine/net/Http2Connection.cpp:78-92 | the first such reason settles a request: every later log holds that answer to it and no other |
| Http2Connection.AdmittedIffNotKilled | engine/net/Http2Connection.cpp:180-186 | a submission is turned away as closed exactly when shutdown, a GOAWAY frame, a failed or ended pump or the end of io_loop came before its test of `alive_`, and admitted otherwise |
| Http2Connection.Connection.constructor | engine/net/Http2Connection.cpp:117-120 | the object starts in the state machine's initial state |
| Http2Connection.Connection.AdmitSubmit | engine/net/Http2Connection.cpp:180-186 | the locked test of `alive_` is the machine's step: a dead connection answers the request at once as closed, a live one answers nothing |
| Http2Connection.Connection.FinishSubmit | engine/net/Http2Connection.cpp:188-202 | an accepted submission is registered under a new id, a refused one is answered as failed, and the mutex is released |
| Http2Connection.Connection.OnStreamClose | engine/net/Http2Connection.cpp:78-92 | the callback answers the request of that stream with the code of the frame and forgets it; an unknown stream changes nothing |
| Http2Connection.Connection.FinishLoop | engine/net/Http2Connection.cpp:334-344 | the end of io_loop answers every request that was outstanding, exactly once and with a closed connection, nobody else, and leaves an empty table |
| HttpPool.TopLevel | engine/net/HttpPool.cpp:189-199 | the level chosen is non-empty and every higher level is empty; -1 exactly when all are empty |
| HttpPool.StepConserves | engine/net/HttpPool.cpp:125-187 | one step moves a request from one place to at most one other, and only being accepted adds it anywhere |
| HttpPool.StepCounts | engine/net/HttpPool.cpp:125-157 | one step changes `pending_` exactly as it changes the number of requests that are not settled |
| HttpPool.InvPreserved | engine/net/HttpPool.cpp:146-323 | places, counts, callback runs, queue levels and what may be lost stay in agreement through every step, whichever callbacks are null or throw |
| HttpPool.InvHolds | engine/net/HttpPool.cpp:125-323 | they do so in every run |
| HttpPool.ExactlyOnePlace | engine/net/HttpPool.cpp:125-323 | in every interleaving a request is in exactly one place once accepted (counted but not queued, queued, in a call of drop_below, with a worker, in an HTTP/1.1 transfer, on an h2 stream, in the result queue, in a batch, finished, lost), and nowhere before |
| HttpPool.PendingCounts | engine/net/HttpPool.cpp:125-157 | `pending_` is at all times the number of requests not yet settled, hence never negative |
| HttpPool.CallbackRunsExactlyOnce | engine/net/HttpPool.cpp:146-187 | no callback runs twice; when nothing is under way, exactly the requests not lost have had their non-null callback run, and a request that no accepted one takes is never lost, so its callback has run exactly once |
| HttpPool.HighestFirst | engine/net/HttpPool.cpp:189-199 | a worker never starts a request while one of higher priority is queued, and takes the first request pushed to its level that has not left it |
| HttpPool.LevelsAreQueues | engine/net/HttpPool.cpp:125-199 | over any run, what has left a level, popped or dropped, is a prefix of what was pushed to it, in order, and the rest still waits |
| HttpPool.ResultsInOrder | engine/net/HttpPool.cpp:173-187 | over any run, the results poll has come to or lost, then the swapped batch, then the queue are the completed requests in the order in which they completed, over HTTP/2 or HTTP/1.1 |
| HttpPool.CollectedInOrder | engine/net/HttpPool.cpp:246-263 | each turn of poll runs the callback of the request that completed first among those it has not come to, and no other callback |
| HttpPool.BatchDeliveredIffCallable | engine/net/HttpPool.cpp:173-187 | poll loses nothing of the batch it swapped out if and only if every callback in it is non-null and none but the last throws; then every callback in it has run |
| HttpPool.DropDeliveredIff | engine/net/HttpPool.cpp:159-167 | drop_below loses nothing of what it took out if and only if no callback but the last throws; null ones are skipped |
| HttpPool.LostIffTaken | engine/net/HttpPool.cpp:146-187 | some run that accepts no other requests than given ones loses a certain one if and only if one of them takes it: a plain request with a null callback takes itself and any other plain one, one whose callback throws takes any other plain one if it is plain, and any of no higher priority if it is below CRITICAL and so can be dropped |
| HttpPool.TerminatesIff | engine/net/HttpPool.cpp:246-323 | some run that accepts no other requests than given ones lets an exception leave a worker thread if and only if one of them is streaming and its completion callback throws, or its chunk callback throws something that is not a std::exception, or one is a plain request to a host whose port get_h2 cannot read and another of them goes to the same host |
| HttpPool.CallbackTerminates | engine/net/HttpPool.cpp:265-316 | a run from the start with such a streaming request alone ends in the exception |
| HttpPool.PortTerminates | engine/net/HttpPool.cpp:82-100 | a run from the start with two requests of which no callback has run ends in the exception of reading the port, for every such host and every second request to it |
| HttpPool.BracketedHostTerminates | engine/net/HttpPool.cpp:94-100 | two plain requests to `https://[::1]:8443` whose callbacks return are enough for it |
| HttpPool.NullCallbackLosesAnother | engine/net/HttpPool.cpp:173-187 | a run of the machine, from the start, in which a plain request without a callback makes poll throw and another request's callback never runs |
| HttpPool.ThrowingCallbackLosesAnother | engine/net/HttpPool.cpp:159-187 | the same with a callback that throws, once in poll and once in drop_below |
| HttpPool.PollDelivers | engine/net/HttpPool.cpp:173-187 | one call of poll, turn by turn in the machine, runs and finishes exactly CallsOf its batch and loses exactly the rest; the batch stands in order of completion by ResultsInOrder |
| HttpPool.CallsAreRight | engine/net/HttpPool.cpp:173-187 | CallsOf is the whole batch when every callback returns; otherwise it ends with the first that throws or just before the first that is null |
| HttpPool.DropDelivers | engine/net/HttpPool.cpp:159-167 | one call of drop_below, turn by turn in the machine, finishes exactly the first ReachedIn requests it took out, runs their non-null callbacks and loses exactly the rest |
| HttpPool.Pool.constructor | engine/net/HttpPool.cpp:10-14 | the pool starts empty with nothing pending |
| HttpPool.Pool.Get | engine/net/HttpPool.cpp:125-144 | the request is counted and put behind the others of its level |
| HttpPool.Pool.DropBelow | engine/net/HttpPool.cpp:146-171 | the levels strictly below the threshold are emptied, from the top one down, the counter goes down by their sizes, the other levels keep theirs; then the non-null callbacks run in order up to and including the first that throws; these are the ones by which the machine's call changes in DropDelivers |
| HttpPool.Pool.PopHighest | engine/net/HttpPool.cpp:189-199 | the oldest request of the highest non-empty level is taken, and nothing else changes |
| HttpPool.Pool.Poll | engine/net/HttpPool.cpp:173-187 | the callbacks of the results run in order until the first that is null, which throws without running, or that throws itself, which is CallsOf the results as in PollDelivers; poll returns normally exactly when there is none |
| HttpPool.Pool.OnH2Complete | engine/net/HttpPool.cpp:252-263 | the callback given to a connection puts the result behind the queued ones if there is a callback to deliver it to, and lowers the counter |
| HttpPool.Pool.FinishTransfer | engine/net/HttpPool.cpp:312-322 | behind an HTTP/1.1 transfer a plain request's result is put behind the queued ones, a streaming request's callback runs, and the counter is lowered unless it throws |
| HttpPool.H2Hosts.MarkEligible | engine/net/HttpPool.cpp:50-54 | a host becomes eligible unless connecting to it has failed before |
| HttpPool.H2Hosts.Find | engine/net/HttpPool.cpp:56-79 | of several callers for one eligible host without a live connection, only one goes on to connect |
| HttpPool.H2Hosts.ConnectEnds | engine/net/HttpPool.cpp:82-121 | the outcome of connecting is recorded and the host is open for the next attempt or use |
| HttpPool.H2Hosts.ConnectTo | engine/net/HttpPool.cpp:82-121 | connecting throws exactly for a host whose port cannot be read and then changes nothing, so the host stays among those being connected to; otherwise the outcome is recorded, plain-text hosts failing without a look at the port; no host whose port cannot be read ever counts as failed or connected |
| HostPort.ThrowsIff | engine/net/HttpPool.cpp:82-100 | for an https host the exception depends exactly on whether std::stoi reads the text between the first colon behind the scheme and the first slash, whatever the name in front |
| HostPort.NoNumberThrows | engine/net/HttpPool.cpp:82-100 | it is thrown for every host whose first colon is followed by nothing or by a character no number starts with, as in a bracketed IPv6 address |
| HostPort.NumberReads | engine/net/HttpPool.cpp:94-100 | a port written as blanks, a sign, leading zeros and the decimal digits of n, whatever follows, is read exactly when n fits a 32-bit int, or is at most one more behind a minus sign |
| HttpPoolOverHttp2.PoolFollows | engine/net/HttpPool.cpp:246-264 | a pool and its connections together: whenever a connection runs a callback the pool still waits for that request, so every joint step is one step of the pool or none |
| HttpPoolOverHttp2.InvHolds | engine/net/HttpPool.cpp:246-264 | in every joint run the pool waits for a request exactly as long as its one connection has not answered it, and no request is submitted twice |
| HttpPoolOverHttp2.RefinesPool | engine/net/HttpPool.cpp:246-264 | what the pool does above real connections is a run of the pool machine, so all its theorems hold there |
| HttpPoolOverHttp2.NothingWaitsOnClosed | engine/net/Http2Connection.cpp:326-344 | the pool waits for no request of a connection whose I/O thread and calls have returned |
| HttpPoolOverHttp2.EveryCallbackRuns | engine/net/HttpPool.cpp:221-323 | when the pool has nothing in its own hands and every connection is closed, the callback of every request that no other takes has run exactly once |
| PcmRingBuffer.NextPowerOf2 | engine/audio/AudioStream.cpp:20-29 | for every 64-bit v the bit trick gives the least power of two not below v when 1 <= v <= 2^63, and zero exactly for all other v |
| PcmRingBuffer.SlotOfTotal | engine/audio/AudioStream.cpp:40-41 | masking a wrapped 64-bit head gives the slot of the unbounded count behind it |
| PcmRingBuffer.HeadDistance | engine/audio/AudioStream.cpp:35-37 | the wrapped difference of the heads is the number of unread samples, also across 2^64 |
| PcmRingBuffer.CopyInHitsFreeSlot | engine/audio/AudioStream.cpp:40-41 | no element the producer copies goes into a slot that still holds an unread sample |
| PcmRingBuffer.InvPreserved | engine/audio/AudioStream.cpp:34-58 | ring contents, heads and the local variables of both threads stay in agreement through every single copy, load and store |
| PcmRingBuffer.InvHolds | engine/audio/AudioStream.cpp:34-58 | they do so in every interleaving |
| PcmRingBuffer.WrittenIsPublished | engine/audio/AudioStream.cpp:43-44 | what counts as written is exactly what completed calls of write published |
| PcmRingBuffer.ReceivedIsPrefixOfPublished | engine/audio/AudioStream.cpp:34-58 | the ring refines an unbounded FIFO: in every interleaving with wrapping heads the samples read are a prefix of the samples published, in order, without loss, duplication or stale data |
| PcmRingBuffer.NoUnreadSlotOverwritten | engine/audio/AudioStream.cpp:40-41 | no step changes the slot of a sample that is published and not yet consumed |
| PcmRingBuffer.Buffer.constructor | engine/audio/AudioStream.cpp:31-32 | the buffer has the least power of two that is at least the requested capacity |
| PcmRingBuffer.Buffer.Write | engine/audio/AudioStream.cpp:34-45 | as many samples as there is room for are appended to what was written, and the number is returned |
| PcmRingBuffer.Buffer.Read | engine/audio/AudioStream.cpp:47-58 | the oldest unread samples come out in order, as many as are asked for and available |
| AudioStream.WritesWholeFrames | engine/audio/AudioStream.cpp:286-293 | every partial write of an even rest into an even ring takes an even number of samples |
| AudioStream.ReadsWholeFrames | engine/audio/AudioStream.cpp:194-198 | got / 2 in read_frames discards no sample |
| AudioStream.InvPreserved | engine/audio/AudioStream.cpp:286-293 | both heads stay even and the chunk being pushed is in step with the ring, through every step |
| AudioStream.InvHolds | engine/audio/AudioStream.cpp:343-350 | they do so in every run that starts with an empty ring |
| AudioStream.FramesNeverSplit | engine/audio/AudioStream.cpp:194-198 | in every run of the partial-write loops and read_frames both heads are even and the reader gets whole frames |
| AudioStream.DecodedSamplesInOrder | engine/audio/AudioStream.cpp:343-350 | each decoded sample enters the ring exactly once and in order: what was published is what was decoded, up to where the current chunk has got |
| AudioStream.AtMostOneWriteAfterCancel | engine/audio/AudioStream.cpp:343-350 | after a cancel at most one write is published, namely the one under way or one whose test of the stop flag had already passed, and none after it |
| AudioStream.WriteAfterCancel | engine/audio/AudioStream.cpp:343-350 | a run in which a cancel comes between the test and the write, and a whole frame enters the ring after it |
| AudioStream.NothingEntersAfterCancel | engine/audio/AudioStream.cpp:286-293 | once cancelled with no such write due the ring never changes again, and nothing more is decoded unless a decode had passed its test |
| ModerationHeat.DecayAgrees | engine/moderation/ModerationHeat.cpp:22-52 | decay keeps two tables in agreement that differ only in trust credit |
| ModerationHeat.AppliedSame | engine/moderation/ModerationHeat.cpp:54-74 | apply leaves the same entry whether or not there was trust credit |
| ModerationHeat.Heat.Apply | engine/moderation/ModerationHeat.cpp:54-74 | apply decays, wipes credit, adds a delta that is never negative, and returns the new heat |
| ModerationHeat.Heat.Peek | engine/moderation/ModerationHeat.cpp:99-106 | peek decays an existing entry and creates none |
| ModerationHeat.Heat.AccrueTrust | engine/moderation/ModerationHeat.cpp:76-97 | positive heat is only decayed; otherwise credit grows down to the floor; bad arguments only read |
| ModerationHeat.Heat.Reset | engine/moderation/ModerationHeat.cpp:128-131 | the entry is forgotten and no other changes |
| ModerationHeat.Heat.Sweep | engine/moderation/ModerationHeat.cpp:133-156 | exactly the entries that were idle before decaying and have decayed below the limit go, and the others are decayed |
| ModerationHeat.DecideIff | engine/moderation/ModerationHeat.cpp:108-126 | the action is the most severe one whose threshold the heat reaches, whatever the order of the thresholds |
| ContentModerator.StepRelated | engine/moderation/ContentModerator.cpp:683-724 | one message, reset or sweep with any two trust settings gives the same enforced action and keeps the simulation between the two states |
| ContentModerator.ContentRelated | engine/moderation/ContentModerator.cpp:719-724 | a message with content gets the same heat on both sides, whatever credit was there before |
| ContentModerator.TrustNeverSoftens | engine/moderation/ContentModerator.cpp:681-724 | for every history of timed messages, resets and sweeps, any two ways of configuring the trust bank, message by message, enforce the same actions and record the same mutes |
| ContentModerator.TrustBankIsInvisible | engine/moderation/ContentModerator.cpp:683-707 | from a fresh start switching the trust bank off changes no action, and heat without trust is max(heat with trust, 0) |
| ContentModerator.NeverBelowZero | engine/moderation/ModerationHeat.cpp:54-74 | without the trust bank no heat is ever negative |
| ContentModerator.TraceUntouchedIff | engine/moderation/ContentModerator.cpp:709-717 | the hypothetical action recorded for an exempt user is independent of credit, for all thresholds, if and only if the heat is not negative |
| ContentModerator.TraceCanSoften | engine/moderation/ContentModerator.cpp:709-717 | a history in which the action recorded for an exempt user is milder with the trust bank than without it, while nothing is enforced either way |
| ContentModerator.Moderator.Check | engine/moderation/ContentModerator.cpp:681-724 | the three branches of check: clean, exempt and enforced, with the heat, the mute and the verdict they leave |
| ContentModerator.Moderator.ResetState | engine/moderation/ContentModerator.cpp:190-204 | heat and mute of one user are forgotten, and the answer tells whether there was any |
| ContentModerator.Moderator.Sweep | engine/moderation/ContentModerator.cpp:895-909 | heat is swept, and exactly the mutes that have run out are removed |
| HeatHistory.HeatOfHistory | engine/moderation/ModerationHeat.cpp:22-73 | after any history of a user, under exponential decay and with any trust settings, the positive heat is the sum of the deltas of the messages with content, each times its decay since, less at most 1e-6 for each event and what a sweep prunes; without sweeps it is exactly the sum while the first delta is still worth 1e-6 |
| HeatHistory.SentenceOfHistory | engine/moderation/ContentModerator.cpp:721-724 | the next message with content is answered with the most severe action that this sum and its own delta reach |
| HeatHistory.HeatAtOnce | engine/moderation/ModerationHeat.cpp:54-74 | messages at the same time add up to the plain sum of their deltas |
| HeatHistory.CreditAtOnce | engine/moderation/ModerationHeat.cpp:76-97 | each clean message at one time earns the reward, down to the limit and no further |
| HeatHistory.ExemptOnlyRecorded | engine/moderation/ContentModerator.cpp:708-719 | an exempt user's message gets no action, adds no heat and no mute, and is recorded with the most severe action its delta would have reached |
| HeatHistory.MutedAsSentenced | engine/moderation/ContentModerator.cpp:156-165 | after any history a user is muted at a time exactly when the last mute sentence without a reset since has not run out by then, whatever was swept in between |
| ChunkedBody.ReadIsDecode | engine/net/Http.cpp:319-397 | however the stream is cut into received pieces, and also when it is truncated, the reader returns what decoding the whole stream at once gives |
| ChunkedBody.PiecesDoNotMatterIff | engine/net/Http.cpp:319-397 | whatever the bound on what is received with the headers, the body depends on nothing but the concatenated stream if and only if decoding reaches no chunk size within two of 2^64 with more bytes behind it than the wrapped sum `chunk_size + 2` asks for |
| ChunkedBody.PiecesMatter | engine/net/Http.cpp:355-374 | two deliveries of any such stream, in pieces of one receive and with nothing received before, that give different bodies |
| ChunkedBody.LateIsShorter | engine/net/Http.cpp:355-374 | delaying the last byte never lengthens the body, and shortens it when a wrapping size is reached |
| ChunkedBody.ReadFollowed | engine/net/Http.cpp:323-336 | the reader receives no piece it does not need: after a whole message it has taken none of the pieces that follow |
| ChunkedBody.RoundTrip | engine/net/Http.cpp:319-397 | on the chunked encoding of any chunk list with extensions and trailers (section 7.1 of RFC 9112), in any pieces and with anything behind it, the reader returns the concatenated chunks; what stays in the socket is an end of what follows the message, all of it exactly when a piece ends with the message |
| ChunkedBody.DecodeEncoded | engine/net/Http.cpp:319-397 | decoding inverts encoding, whatever the sender's choice of hexadecimal digits (either case, leading zeros), extensions and trailers |
| ChunkedBody.SkipTrailersIsAfterTrailers | engine/net/Http.cpp:376-393 | the trailer loop stops after the first empty line of the stream, whatever the pieces |
| ChunkedBody.Socket.Recv | engine/net/Http.cpp:298-317 | a receive returns at most what is asked for from the next piece, and nothing only at the end of the stream |
| ChunkedBody.ReadChunkedBody | engine/net/Http.cpp:319-397 | the loop over the socket returns exactly the body, and leaves exactly the input, of the piecewise reader |
| ChunkedBody.ReadBody | engine/net/Http.cpp:298-317 | exactly the announced number of bytes, or all there are, and `complete` tells which; nothing beyond is received |
| Hexadecimal.ReadsIff | engine/net/Http.cpp:355-356 | a text is read as n in base 16 exactly when it is made by dividing n by 16 again and again, with digits of either case and any number of leading zeros |
| Hexadecimal.HexWrites | engine/net/Http.cpp:355-356 | the digits of a printer that divides by 16, behind any zeros, are such a text, so every size can be written and is read back |
| RateLimiter.StepSpends | engine/net/RateLimiter.cpp:26-56 | an event admits no more than it takes from what is available, even when it is a sweep |
| RateLimiter.SpentIsBounded | engine/net/RateLimiter.cpp:26-56 | the cost admitted from any state on is at most what is available then plus rate times the time that passes |
| RateLimiter.WindowBound | engine/net/RateLimiter.cpp:26-76 | in any run, in any window, across any number of sweeps with max_idle >= burst/rate, the cost admitted for one key is at most burst + rate * T |
| RateLimiter.TightWindow | engine/net/RateLimiter.cpp:26-56 | what a key has available after any history, from its first use on, is burst plus accrual less admitted cost of some window ending now: the bound is reached |
| RateLimiter.GrantIff | engine/net/RateLimiter.cpp:26-56 | a call is granted if and only if every window ending with it still keeps that bound, so nothing is refused that the bound allows, across patient sweeps and calls for other keys |
| RateLimiter.RunInv | engine/net/RateLimiter.cpp:26-76 | tokens are never negative, refills never date from the future, and every bucket keeps its rule, in every run |
| RateLimiter.RunCapped | engine/net/RateLimiter.cpp:26-76 | tokens never exceed the burst in any run whose costs are not negative |
| RateLimiter.CeilingIff | engine/net/RateLimiter.cpp:50-53 | the burst is a ceiling in every history of calls with costs from some bound on if and only if that bound is not negative |
| RateLimiter.SweepsUnobservable | engine/net/RateLimiter.cpp:58-76 | with max_idle >= burst/rate a swept limiter answers every later call as the unswept one does, calls between the shards of one sweep included |
| RateLimiter.SweepIsEachShard | engine/net/RateLimiter.cpp:58-76 | locking and sweeping shard by shard, in any order, sweeps all of them when nothing comes between |
| RateLimiter.SweepHarmlessIff | engine/net/RateLimiter.cpp:58-76 | sweeping with a given idle time is unobservable in every history if and only if burst <= rate * max_idle |
| RateLimiter.EarlySweepShows | engine/net/RateLimiter.cpp:58-76 | otherwise a history in which the sweep lets a call through that would have been refused and breaks the bound |
| RateLimiter.Limiter.Configure | engine/net/RateLimiter.cpp:12-24 | a rule is set for later buckets; existing ones keep theirs |
| RateLimiter.Limiter.Allow | engine/net/RateLimiter.cpp:26-56 | an action without a rule is unlimited; otherwise the refilled bucket pays the cost or refuses it |
| RateLimiter.Limiter.SweepIdle | engine/net/RateLimiter.cpp:58-76 | exactly the buckets idle for longer go, and their number is returned |
| AssetCache.GotValid | engine/asset/AssetCache.cpp:8-18 | get keeps map and list in agreement, makes the path the most recent and leaves the sum of the sizes alone |
| AssetCache.EvictionIsExact | engine/asset/AssetCache.cpp:83-116 | whatever the counter shows, eviction removes exactly the unpinned entries met from the back until the counter, less their present sizes, is within the limit; it ends there or with nothing but pinned entries; it never loses a pinned one and does nothing within the limit |
| AssetCache.EvictionFits | engine/asset/AssetCache.cpp:83-116 | while the counter is the sum of the present sizes, eviction removes no more and no less than makes what is left fit, and the counter stays the sum |
| AssetCache.WrappedLosesAll | engine/asset/AssetCache.cpp:83-116 | once assets have grown by more than is cached, the counter has wrapped and eviction removes every unpinned asset, however little is cached |
| AssetCache.InsertKeepsNew | engine/asset/AssetCache.cpp:28-45 | whatever the counter shows, insert keeps map and list in agreement, makes the asset the most recent entry, and its own eviction never drops it |
| AssetCache.SessionClearedExactly | engine/asset/AssetCache.cpp:61-81 | clear_session removes exactly the entries of that session and keeps the order of the others |
| AssetCache.InOrderOfUse | engine/asset/AssetCache.cpp:8-45 | after any history of get, insert, evict, clear, clear_session and assets changing size, the list is duplicate-free and holds exactly the cached keys in order of last get or insert |
| AssetCache.CounterMissesGrowth | engine/asset/AssetCache.cpp:28-45 | after any such history the counter is, modulo 2^64, the sum of the present sizes less what assets have grown while they were cached since the last clear |
| AssetCache.CounterRightIff | include/asset/AssetCache.h:83-89 | the counter is the documented sum, modulo 2^64, all through a history if and only if no asset changes its size while it is cached |
| AssetCache.GrownAtlasEmptiesCache | include/asset/ImageAsset.h:111-143 | a history in which a cached atlas grows and is registered anew: the counter wraps and the other asset is evicted although 5 of 100 bytes were cached |
| AssetCache.AssetCache.Get | engine/asset/AssetCache.cpp:8-18 | the entry is found exactly when it is cached, and moves to the front |
| AssetCache.AssetCache.Insert | engine/asset/AssetCache.cpp:28-45 | an old entry of the path is replaced, the new one is first, and then eviction runs |
| AssetCache.AssetCache.EvictLocked | engine/asset/AssetCache.cpp:83-116 | the iterator loop over the list computes exactly the eviction that is specified |
| AssetCache.AssetCache.ClearSession | engine/asset/AssetCache.cpp:61-81 | the iterator loop erases exactly the session's entries |
| ProxyProtocol.Incremental | engine/net/ProxyProtocol.cpp:188-219 | once the parser on a prefix does not ask for more data, every extension gives the same result (sections 2.1 and 2.2 of the PROXY protocol specification) |
| ProxyProtocol.HeaderLengthIsLeast | engine/net/ProxyProtocol.cpp:188-219 | a non-zero header_length is the least number of bytes at which the parser decides: with that many it gives the same result, with fewer it asks for more |
| ProxyProtocol.HeaderWithin | engine/net/ProxyProtocol.cpp:188-219 | a header lies within the bytes it was read from |
| ProxyProtocol.AlwaysDecides | engine/net/ProxyProtocol.cpp:188-219 | the parser never asks for more once it holds the longest possible header |
| ProxyProtocol.V2RoundTrip | engine/net/ProxyProtocol.cpp:99-186 | parsing any version 2 header a proxy can write whose length fits 16 bits, with any bytes behind it, gives back addresses and ports and the offset of the first byte of the connection |
| ProxyProtocol.V1RoundTrip | engine/net/ProxyProtocol.cpp:21-62 | a version 1 line of at most 107 bytes is read up to its line end, whatever follows |
| ProxyProtocol.V1WaitsIff | engine/net/ProxyProtocol.cpp:27-44 | after the version 1 prefix the parser asks for more exactly as long as it has fewer than 108 bytes and no line end |
| ProxyProtocol.V1Inverts | engine/net/ProxyProtocol.cpp:55-94 | parsing a written version 1 line gives the source as the client and the destination as the server, the low 16 bits of their ports, and the offset behind the line, exactly when the source is an address of the named protocol; otherwise it is not valid |
| ProxyProtocol.LineEndIsFirst | engine/net/ProxyProtocol.cpp:27-41 | the line end found is the first one within the limit |
| ProxyProtocol.FindLineEnd | engine/net/ProxyProtocol.cpp:27-41 | the scanning loop finds it, or reports that there is none |
| FieldScanner.ScanWritten | engine/net/ProxyProtocol.cpp:64-71 | reading five fields with `%7s %63s %63s %u %u` inverts writing them with single spaces and decimal numbers |
| TrustedProxyList.MaskKeepsPrefix | engine/net/TrustedProxyList.cpp:28-34 | masking leaves two IPv4 addresses equal exactly when their first `prefix` bits agree, for every prefix from 0 to 32 |
| TrustedProxyList.MatchesIsCovers | engine/net/TrustedProxyList.cpp:47-62 | comparing whole bytes and then one masked byte compares exactly the first `prefix` bits of an IPv6 address |
| TrustedProxyList.TrustedList.Configure | engine/net/TrustedProxyList.cpp:66-144 | afterwards exactly the addresses covered by a well-formed entry are matched: exact addresses, IPv4 and IPv6 blocks; malformed and empty entries add nothing |
| TrustedProxyList.TrustedList.Add | engine/net/TrustedProxyList.cpp:70-141 | one entry of the configuration adds exactly the block it names |
| TrustedProxyList.Block4Means | engine/net/TrustedProxyList.cpp:75-118 | an IPv4 address, a slash and a number stand for exactly the addresses that share so many leading bits, and for none if the number is not from 0 to 32 |
| TrustedProxyList.Block6Means | engine/net/TrustedProxyList.cpp:86-100 | the same for IPv6 and 0 to 128 |
| TrustedProxyList.AloneMeans4 | engine/net/TrustedProxyList.cpp:131-138 | an IPv4 address alone stands for itself only |
| TrustedProxyList.AloneMeans6 | engine/net/TrustedProxyList.cpp:121-130 | an IPv6 address alone stands for itself only |
| TrustedProxyList.TrustedList.IsTrusted | engine/net/TrustedProxyList.cpp:148-190 | is_trusted holds exactly when some configured entry's first prefix bits agree with the address, where an address written `::ffff:` and an IPv4 address also counts as that IPv4 address |
| TrustedProxyList.TrimCuts | engine/net/TrustedProxyList.cpp:203-209 | trimming cuts between the first and the last character that is not blank |
| TrustedProxyList.SplitAtCommas | engine/net/TrustedProxyList.cpp:222-233 | the splitting loop gives the trimmed pieces between commas, with nothing after a comma that ends the header |
| TrustedProxyList.PiecesJoin | engine/net/TrustedProxyList.cpp:222-233 | splitting text, a comma and a header gives the pieces of the text and then those of the header |
| TrustedProxyList.RightmostIsExtracted | engine/net/TrustedProxyList.cpp:244-252 | with a trusted list the answer is the rightmost valid untrusted address |
| TrustedProxyList.PrependKeeps | engine/net/TrustedProxyList.cpp:218-262 | text and a comma put in front of a header that holds a valid untrusted address never change the answer |
| TrustedProxyList.PrependHarmlessIff | engine/net/TrustedProxyList.cpp:218-262 | as long as any valid address is outside the list, these are the only headers nobody can change by writing in front of them: a header is safe from every prefix if and only if it holds a valid untrusted address |
| TrustedProxyList.NoListLeftmostDecides | engine/net/TrustedProxyList.cpp:259-261 | without a list text in front of a header decides alone |
| TrustedProxyList.ExtractForwardedIp | engine/net/TrustedProxyList.cpp:218-262 | the two loops return exactly that address; an empty header, and one whose fallback is no address, give the empty string |
| WsWorkerPool.OrderKept | apps/kagami/WsWorkerPool.cpp:47-141 | every step of the poll thread and of every worker keeps each client's line (handed over, held, queued, not yet queued) equal to its arrivals without the refused ones |
| WsWorkerPool.HomedKept | apps/kagami/WsWorkerPool.cpp:133 | a frame is only ever in the slot its client id hashes to, and with that slot's worker |
| WsWorkerPool.InvHolds | apps/kagami/WsWorkerPool.cpp:47-141 | the invariant holds at every point of every interleaving |
| WsWorkerPool.ClientOrder | apps/kagami/WsWorkerPool.cpp:47-141 | in every interleaving what was dispatched for a client is a prefix of its arrivals without rate-limited frames, in order of arrival and without duplicates |
| WsWorkerPool.AllDelivered | apps/kagami/WsWorkerPool.cpp:47-141 | when nothing is under way it is all of them |
| WsWorkerPool.NothingRefusedWithoutLimiter | apps/kagami/WsWorkerPool.cpp:72-90 | without a limiter no frame is dropped |
| WsWorkerPool.LimitedIff | apps/kagami/WsWorkerPool.cpp:72-92 | in every run the frames left out are exactly those a configured limiter was asked about and refused: the frame or byte limit on arrival, or the limit of its message type if it has a header |
| WsWorkerPool.Pool.constructor | apps/kagami/WsWorkerPool.cpp:16-25 | there is at least one slot, and all are empty |
| WsWorkerPool.Pool.Receive | apps/kagami/WsWorkerPool.cpp:113 | a batch is received in order |
| WsWorkerPool.Pool.EnqueueBatch | apps/kagami/WsWorkerPool.cpp:122-142 | the loop over a batch is the same as that many single steps: a frame refused by either limit is dropped, any other goes to the end of its client's slot |
| WsWorkerPool.Pool.TakeFront | apps/kagami/WsWorkerPool.cpp:52-61 | a worker takes the front of its own slot's queue |
| WsWorkerPool.Pool.CheckLimit | apps/kagami/WsWorkerPool.cpp:72-93 | a frame with a header whose message type is over its limit is dropped, any other goes on |
| WsWorkerPool.Pool.HandOver | apps/kagami/WsWorkerPool.cpp:95 | the frame held is handed to the game |
| WsWorkerPool.Pool.TotalQueued | apps/kagami/WsWorkerPool.cpp:197-204 | the loop adds up the queue lengths |
| PathParams.ParseInverts | engine/net/Http.cpp:1924-1938 | parsing loses nothing: the pattern is its fragments with a colon and the name between them |
| PathParams.ParseSeparates | engine/net/Http.cpp:1924-1938 | no parameter name holds a slash, and every parameter that does not end the pattern is followed by one |
| PathParams.MatchesIff | engine/net/Http.cpp:1941-1960 | a path matches if and only if it is the pattern with each parameter replaced by a slash-free value |
| PathParams.ValuesUnique | engine/net/Http.cpp:1941-1960 | that decomposition is unique: its values are the ones met on the way |
| PathParams.RouteRoundTrip | engine/net/Http.cpp:1953 | a parameter that no later one shares its name with reads back the value that was substituted |
| PathParams.ReadsBackIff | engine/net/Http.cpp:1953 | all parameters read back for all values if and only if their names are distinct |
| PathParams.PathParamsMatcher.constructor | engine/net/Http.cpp:1924-1938 | the loop over the pattern computes exactly its fragments and names |
| PathParams.PathParamsMatcher.Match | engine/net/Http.cpp:1941-1960 | the loop over the path returns whether it matches, and path_params holds what was met, also when the path fails to match in the end |
| Utf8.StrictIsTable | engine/moderation/UnicodeClassifier.cpp:24-76 | the unicode classifier's decoder accepts exactly the well-formed sequences of section 4 of RFC 3629, with their lengths |
| Utf8.LenientIsStrict | engine/moderation/SlurFilter.cpp:24-81 | the slur filter's decoder decodes what the other accepts, and everything else is one replacement character for one byte |
| Utf8.PiecesAgree | engine/moderation/SlurFilter.cpp:24-81 | both decoders split every byte string into the same sequence of code points and single invalid bytes |
| Utf8.DecodeEncoded | engine/moderation/UnicodeClassifier.cpp:24-76 | decoding the encoding of any scalar value, whatever follows, gives it back |
| Utf8.EncodeDecoded | engine/moderation/UnicodeClassifier.cpp:24-76 | a decoded sequence is the encoding of its code point, and so the only sequence for it |
| Utf8.WellFormedJoin | engine/moderation/UnicodeClassifier.cpp:295-304 | after a well-formed text, what follows is well-formed or not as if it stood alone |
| Utf8.PrefixIff | engine/moderation/ContentModerator.cpp:326-328 | a prefix of a well-formed text is well-formed exactly when it ends before a byte that is no continuation |
| Utf8.NoInvalidIff | engine/moderation/UnicodeClassifier.cpp:295-304 | the classifier counts no invalid byte exactly when the text is well-formed |
| Utf8.DecodeUtf8 | engine/moderation/SlurFilter.cpp:24-81 | the decoder with its loop computes the specified code point and position |
| Utf8.CountPieces | engine/moderation/UnicodeClassifier.cpp:295-304 | the decoding loop counts exactly the code points and the invalid bytes |
| MessageSample.SampleIsLongest | engine/moderation/ContentModerator.cpp:309-356 | a well-formed message is cut to its longest well-formed prefix of at most max bytes, and the sample with its ellipsis is well-formed |
| MessageSample.Sample | engine/moderation/ContentModerator.cpp:309-356 | the two walk-back loops compute exactly that cut, also on texts that are not well-formed |
| SlurNormalizer.FoldOneShape | engine/moderation/SlurFilter.cpp:298-333 | one code point becomes at most one lower-case ASCII character, and a digit that stands for a letter only from a fullwidth digit |
| SlurNormalizer.LetterIff | engine/moderation/SlurFilter.cpp:112-296 | the code points read as a given lower-case letter are exactly both its cases, their fullwidth forms, the leet digit for it, and the accented, Cyrillic and Greek letters listed for it |
| SlurNormalizer.DroppedIff | engine/moderation/SlurFilter.cpp:87-110 | the code points dropped without a trace are exactly the listed ranges of combining marks and zero-width characters |
| SlurNormalizer.NormalizedShape | engine/moderation/SlurFilter.cpp:286-365 | a normalized message is lower-case ASCII with no letter three times in a row, and holds a digit that stands for a letter exactly when the message held such a fullwidth digit |
| SlurNormalizer.CollapseMembers | engine/moderation/SlurFilter.cpp:350-364 | collapsing loses no character altogether and adds none |
| SlurNormalizer.CollapseIs | engine/moderation/SlurFilter.cpp:348-365 | however a text is read as stretches of one character each, collapsing turns a stretch of more than two letters into one letter and leaves every other stretch |
| SlurNormalizer.IdempotentIff | engine/moderation/SlurFilter.cpp:286-365 | normalizing is idempotent on a message if and only if it has no fullwidth digit among 0 1 3 4 5 7 9 |
| SlurNormalizer.FullwidthTwice | engine/moderation/SlurFilter.cpp:286-365 | a message on which it is not: the fullwidth digit one |
| SlurNormalizer.FoldJoin | engine/moderation/SlurFilter.cpp:295-333 | after a well-formed prefix folding goes on as if the rest stood alone |
| SlurNormalizer.InsertionInvisible | engine/moderation/SlurFilter.cpp:286-365 | a combining mark or zero-width character after any well-formed prefix makes no difference |
| SlurNormalizer.FoldMessage | engine/moderation/SlurFilter.cpp:290-333 | the decoding loop gives one folded character, a space or nothing for each code point or invalid byte, in order |
| SlurNormalizer.CollapseRuns | engine/moderation/SlurFilter.cpp:350-364 | the run loop shortens exactly the runs of three and more letters, to one, and leaves everything else |
| SlurNormalizer.Normalize | engine/moderation/SlurFilter.cpp:286-365 | a message of any bytes is normalized as specified, by the two passes one after the other |
| SlurFilter.TokensAreWords | engine/moderation/SlurFilter.cpp:367-382 | every token is a non-empty run of letters and digits |
| SlurFilter.WordIsToken | engine/moderation/SlurFilter.cpp:367-382 | such a run alone is one token |
| SlurFilter.TokensSplit | engine/moderation/SlurFilter.cpp:367-382 | any other character separates: the tokens are those before it and those after it |
| SlurFilter.StripSuffix | engine/moderation/SlurFilter.cpp:384-410 | a stem is a beginning of its token, and at least three characters if anything was removed |
| SlurFilter.StemIff | engine/moderation/SlurFilter.cpp:384-410 | the stem is the token without the longest of ers, ing, ed, er, es and s that leaves at least three characters, and the token itself if none does |
| SlurFilter.Candidate | engine/moderation/SlurFilter.cpp:521-534 | a token matches only a listed word that is not excepted, and an excepted token matches nothing |
| SlurFilter.CandidateIff | engine/moderation/SlurFilter.cpp:517-534 | a token matches a word exactly when neither is excepted, the word is listed, and it is the token or, if the token is not listed, its stem |
| SlurFilter.ScanIsExact | engine/moderation/SlurFilter.cpp:491-550 | a scan reports exactly the words that some token of the message or its stem matches, each once, and scores exactly when there is one |
| SlurFilter.ScanIgnoresInsertions | engine/moderation/SlurFilter.cpp:491-550 | the verdict is unchanged by a combining mark or zero-width character after any well-formed prefix |
| SlurFilter.NoShortWords | engine/moderation/SlurFilter.cpp:423-461 | no loaded word is shorter than three characters, and each is the first token of an entry |
| SlurFilter.EntryIsFound | engine/moderation/SlurFilter.cpp:423-461 | a message that is an entry of the loaded list is found, unless its word is too short or excepted |
| SlurFilter.Tokenize | engine/moderation/SlurFilter.cpp:367-382 | the nested loops return the maximal runs of letters and digits in order |
| SlurFilter.Filter.Configure | engine/moderation/SlurFilter.cpp:412-421 | configuring does not touch the lists |
| SlurFilter.Filter.LoadWordlist | engine/moderation/SlurFilter.cpp:423-461 | the list is replaced by the words of the entries |
| SlurFilter.Filter.LoadExceptions | engine/moderation/SlurFilter.cpp:463-474 | the exceptions are replaced by the words of the entries, however short |
| SlurFilter.Filter.Scan | engine/moderation/SlurFilter.cpp:491-550 | the loops report the first occurrences of the candidate words in order, and nothing when the filter is off or has no words |
| WeightTables.U32RoundTrip | engine/moderation/LocalClassifierLayer.cpp:18-25 | four bytes put together with shifts and or read as n exactly when they are the packed form of n |
| WeightTables.ConcatAt | scripts/train_classifier.py:900-904 | cell j of row i of a printed table is at i * width + j |
| WeightTables.TransposedAt | engine/moderation/LocalClassifierLayer.cpp:200-214 | the transposed w1 agrees entry by entry with the tensor that was written, at the indices the loops use |
| WeightTables.TransposeTwice | engine/moderation/LocalClassifierLayer.cpp:200-214 | transposing back gives what was there before |
| WeightTables.Transpose | engine/moderation/LocalClassifierLayer.cpp:200-214 | the three nested loops compute the transposition, every index in bounds |
| WeightsFile.WrittenLoads | engine/moderation/LocalClassifierLayer.cpp:87-262 | for every trained network the loader accepts the written file if and only if 1-64 categories, dimension 1-4096, hidden 1-1024 and name at most 512 bytes hold and the model name matches, and then has every table as it was, the first one transposed |
| WeightsFile.LoadedIsPrinted | engine/moderation/LocalClassifierLayer.cpp:87-262 | whatever is loaded has sizes within the limits and tables to match, and the blob begins with the file that holds it, but for two bytes nobody reads: loading is injective up to those and what follows |
| WeightsFile.PrintedIsWritten | scripts/train_classifier.py:869-907 | printing what was loaded from a written file gives that file |
| WeightsFile.SaysIff | engine/moderation/LocalClassifierLayer.cpp:97-163 | a blob says certain sizes exactly when it begins, reserved bytes aside, with the header written for them |
| WeightsFile.WriteWeightsFileV2 | scripts/train_classifier.py:869-907 | writing one field after another produces exactly that file |
| LocalClassifier.InferenceIsTrained | engine/moderation/LocalClassifierLayer.cpp:315-379 | from the script to the verdict: for every category and input, inference over the loaded tables gives the probability of the trained network, W2 max(0, W1 x + b1) + b2 + Wskip x calibrated |
| LocalClassifier.CalibrationIsLine | engine/moderation/LocalClassifierLayer.cpp:362-367 | a calibrated score is the second stored number at logit zero and grows by the first for each unit of the logit |
| LocalClassifier.ReluIff | engine/moderation/LocalClassifierLayer.cpp:343 | a unit is the larger of zero and its input |
| LocalClassifier.UnitAgrees | engine/moderation/LocalClassifierLayer.cpp:336-347 | the contiguous dot product over the transposed table is the sum over a column of the untransposed one |
| LocalClassifier.LogitAgrees | engine/moderation/LocalClassifierLayer.cpp:349-359 | so are the logits |
| LocalClassifier.LocalClassifierLayer.LoadWeights | engine/moderation/LocalClassifierLayer.cpp:87-262 | an accepted blob replaces the weights, any other and a null one clears them; the cursor never leaves the blob |
| LocalClassifier.LocalClassifierLayer.ReadTables | engine/moderation/LocalClassifierLayer.cpp:198-250 | the tables are read one after another from the cursor on |
| LocalClassifier.LocalClassifierLayer.Classify | engine/moderation/LocalClassifierLayer.cpp:293-313 | nothing is classified when disabled, without weights, or for an embedding that failed or has the wrong size |
| LocalClassifier.LocalClassifierLayer.ClassifyImpl | engine/moderation/LocalClassifierLayer.cpp:315-379 | each of the first seven categories has its probability as score, and the index is the first category with the largest positive probability |
| LocalClassifier.LocalClassifierLayer.ClassifyAxis | engine/moderation/LocalClassifierLayer.cpp:335-368 | the loops compute one category's probability |
| ConfigReloader.Remapped | apps/kagami/ConfigReloader.cpp:141-165 | a selection becomes the same character by name in the new list, or none; spectators stay |
| ConfigReloader.LosesIff | apps/kagami/ConfigReloader.cpp:77-90 | the selections dropped before the lists are replaced are exactly those that would come out as none |
| ConfigReloader.DisplacedMore | apps/kagami/ConfigReloader.cpp:65-73 | nobody is counted as relocated twice, also when an old area is listed twice |
| ConfigReloader.StateCarried | apps/kagami/ConfigReloader.cpp:94-140 | if identifiers are distinct, every listed area that was there keeps its runtime state by name, and every new one begins fresh with its settings |
| ConfigReloader.AreaAfterReload | apps/kagami/ConfigReloader.cpp:94-140 | field by field: an area that was there under its name keeps status, lock, background, music, hp, timers, evidence, testimony, owners, invitations and background lock whatever the settings say; any other starts untouched with the last settings for its name |
| ConfigReloader.IndexedAt | engine/game/GameRoom.cpp:323-338 | under distinct identifiers every listed name has a fresh state under its own identifier |
| ConfigReloader.ConfiguredAt | apps/kagami/ConfigReloader.cpp:128-139 | settings are applied to an area exactly when it was not there before, the last ones winning, and to no other area |
| ConfigReloader.PreservedIff | apps/kagami/ConfigReloader.cpp:92-96 | what is preserved under a name is exactly the old state of the area of that name |
| ConfigReloader.HolderKeepsCharacter | apps/kagami/ConfigReloader.cpp:142-165 | after a reload a valid holder has the same character by name and it is marked as taken, or has none exactly when the name is gone |
| ConfigReloader.NoNewSharing | apps/kagami/ConfigReloader.cpp:142-165 | nobody comes to share a character with somebody who held another one |
| ConfigReloader.SameListIff | apps/kagami/ConfigReloader.cpp:142-165 | reloading the same list leaves a selection alone if and only if no later character has its name |
| ConfigReloader.EverybodyListed | apps/kagami/ConfigReloader.cpp:62-73 | every session that was in an old area is in a listed one, and all others stay |
| ConfigReloader.GameRoom.BuildAreaIndex | engine/game/GameRoom.cpp:323-338 | the three indexes are those of the list: the first name of an identifier has the state, the last index of a name wins |
| ConfigReloader.GameRoom.FindAreaByName | engine/game/GameRoom.cpp:344-349 | a state is found exactly when the name is listed and its identifier filed |
| ConfigReloader.GameRoom.SessionsInArea | engine/game/GameRoom.cpp:167-174 | exactly the sessions in the area are returned |
| ConfigReloader.GameRoom.Relocate | apps/kagami/ConfigReloader.cpp:62-73 | players in areas that are gone are in the first listed area, all others where they were, and the count is the number of those who moved |
| ConfigReloader.GameRoom.Unselect | apps/kagami/ConfigReloader.cpp:77-90 | exactly the selections whose character is gone are dropped, and counted |
| ConfigReloader.GameRoom.PreserveStates | apps/kagami/ConfigReloader.cpp:92-96 | every old state is kept under its name |
| ConfigReloader.GameRoom.RestoreStates | apps/kagami/ConfigReloader.cpp:108-126 | every listed area that was there gets its old runtime state back |
| ConfigReloader.GameRoom.ApplyConfigs | apps/kagami/ConfigReloader.cpp:128-139 | settings go only to listed areas that are new, in the order of the file, so the last ones for a name win |
| ConfigReloader.GameRoom.Remap | apps/kagami/ConfigReloader.cpp:142-165 | every selection is remapped, and a character is marked exactly when some session holds it |
| ConfigReloader.GameRoom.ApplyContentChanges | apps/kagami/ConfigReloader.cpp:56-168 | a whole reload: with an empty list of areas nothing changes at all; otherwise all of the above hold together |

## Left out

- Sockets, TLS, nghttp2, JSON, sqlite, logging, metrics and audio devices: their effects are parameters or choices of a step.
- The memory model: steps are sequentially consistent, as the acquire and release pairs on the ring's heads and the mutexes give; locks are atomic sections.
- HttpPool after stop(): queues are cleared without callbacks and a worker may pop twice; all statements are about runs before stop().
- HttpPool: one thread polls, and not from inside a callback; a std::exception of a chunk callback counts as a failed transfer. Running out of memory is not part of this model.
- HttpPool: whether an HTTP/1.1 transfer succeeds is a choice of a step, for every host string; hosts are compared as strings.
- PcmRingBuffer: reset() during concurrent use, and what available() tells a third thread.
- Floating point: heat, tokens and weights are reals, exponential decay is any factor between 0 and 1 that depends on elapsed time, the logistic function and the value of a stored word are any functions.
- ContentModerator: the detection layers and heat_delta_from; the heat of a message is a parameter. Mute persistence, audit records and traces other than the action are not part of this model.
- ChunkedBody: read_final_headers and the streaming reader; a stream is shorter than 2^64 - 2 bytes, so that appending to a string does not wrap.
- RateLimiter: reconfiguring a rule while buckets of the old one exist; rules are fixed in a run.
- RateLimiter: rates and bursts are assumed not negative; configure and the reload accept any numbers.
- AssetCache.InOrderOfUse: says nothing of the byte counter, which is not the sum of the sizes after every history; CounterMissesGrowth says what it is.
- AssetCache: who holds an asset and how big it is during a call are parameters of that call, so no asset changes size while a call runs.
- ProxyProtocol: inet_pton and inet_ntop, and what sscanf makes of a number that is negative or does not fit 32 bits, are any deterministic functions of their input.
- TrustedProxyList: inet_pton and stoi are any deterministic functions of their input.
- WsWorkerPool: the limiter's answers are parameters; session expiry, periodic sweeps and stopping are not part of this model.
- PathParams: the regular-expression matcher.
- SlurFilter: reloading the lists between the two locked sections of a scan.
- UnicodeClassifier: scripts and scores; only its decoder and decoding loop are modelled.
- MessageSample.Sample: messages of 2^31 bytes or more, whose size the code would convert to a negative number.
- LocalClassifier: swapping weights while a classification runs; it works on a snapshot.
- ConfigReloader: settings other than the content lists, the broadcast after a reload, and the selection of characters outside a reload, which can leave a session with a freed character.
- ConfigReloader: slugs and hashes of area names are any functions of the name; statements about single areas assume that listed names have distinct hashes.
- UI, rendering, fetchers, deployment and training code.
- Nothing was executed: every statement is a proof about the models.
