# TdSocket: framing protocol and connection manager

A Dafny model of the core of TdSocket, a small Java library for long-lived
socket connections.

**The wire protocol of one connection (`TdSocket`).** A message travels as a
text header `length=<n>`, a newline byte, and then exactly `n` payload bytes.
The model covers the following:
- the encoder (`sendMessage`);
- the header reader (`readHeader`), which reads byte by byte up to the first newline;
- the header parser (`getParameters`), which splits on `;` and then on `=` with Java's `String.split` semantics;
- the frame decoder (`readMessage`), which looks up `length`, parses it as an `int`, rejects a missing, malformed or non-positive value, and then reads the payload in as many read calls as the stream needs;
- the timeout accessors and the field defaults.

**The connection manager (`SocketManager`), run one step at a time.** The model covers the following:
- the registry of connections (`tdSocketList`);
- the FIFO queue of pending `onReceiveMessage` calls (`invokeTaskList`);
- the invoker counter that `start` raises to `maxInvokeThread`;
- the client and server registration paths;
- `removeTdSocket`;
- the reader task, which queues every frame that is not the heartbeat response and always reports the disconnection;
- the writer task, which sleeps until 2000 ms before the timeout, skips the heartbeat when something was sent within the timeout less 3000 ms, and otherwise sends the heartbeat request;
- the invoker, which runs queued deliveries in order while any connection is registered and leaves when the registry is empty.

**How state and callbacks appear in the model.**
- Streams are byte sequences. The input is what the peer has still to deliver; the output is everything written so far.
- Clock readings are parameters. The writer runs over a sequence of `Tick`s, the clock readings before and after each sleep.
- Socket states: `NoSocket` is `socket == null`; `Unconnected` is a socket whose connect failed (present, not closed, not connected); `Open` is connected and not closed; `Closed` is closed. `Live` is the loops' guard `socket != null && !socket.isClosed()` and `IsConnect` is `isConnect()`.
- Callbacks to the application are recorded, in order, as `Event`s.

**Specification functions and proved properties.**
- `DecodeFrame`/`EncodeFrame` are the protocol.
- `ReaderRun` is the reader task over a whole stream.
- `HeartbeatTimes` gives the writer's send times.

Each imperative method is proved against these functions. The properties are proved as lemmas about them:
- the round trip;
- that header parsing keeps the last definition of a key;
- that an empty message is always rejected by the decoder;
- that the reader keeps the peer's order and drops exactly the heartbeats;
- that an idle writer sends at every wake.

Files:
- `text.dfy` (module `Text`): bytes and the default-charset conversion, `String.split`, `String.valueOf`, `Integer.parseInt`.
- `framing.dfy` (module `Framing`): the protocol as functions.
- `tdsocket.dfy` (module `Connections`): class `TdSocket`.
- `heartbeat.dfy` (module `Heartbeat`): the heartbeat filter and timing rule.
- `manager.dfy` (module `Manager`): class `SocketManager` and the reader, writer and invoker tasks.

## Model

| member | source | states |
|---|---|---|
| Text.CharsInjective | src/main/java/org/td/socket/SocketManager.java:148 | `new String(bytes)` (Chars) is injective on the encodings of ASCII strings: the only bytes that decode to an ASCII string are that string's bytes, so the byte-length-and-text test equals "not the heartbeat bytes" |
| Text.CharsOfBytes | src/main/java/org/td/socket/TdSocket.java:176-178 | `new String` of the bytes `getBytes()` writes for an ASCII string gives the string back |
| Text.BytesAppend | src/main/java/org/td/socket/TdSocket.java:176-177 | writing two ASCII strings one after the other writes the bytes of their concatenation |
| Text.Fields | src/main/java/org/td/socket/TdSocket.java:103 | the fields between separators: at least one, none containing the separator, and joining them with the separator gives the input back |
| Text.FieldsNoSeparator | src/main/java/org/td/socket/TdSocket.java:103 | a string without the separator is its own single field |
| Text.FieldsAt | src/main/java/org/td/socket/TdSocket.java:105 | the first field ends at the first separator and the rest are the fields of what follows |
| Text.DropTrailingEmpty | src/main/java/org/td/socket/TdSocket.java:103 | the result is a prefix of the pieces, ends in a non-empty piece (or is empty), and only empty pieces were dropped |
| Text.Split | src/main/java/org/td/socket/TdSocket.java:103-105 | `String.split`: no piece holds the separator; with no separator the string itself is the only piece; otherwise the pieces are the fields between separators with exactly the trailing empty ones dropped |
| Text.SplitPair | src/main/java/org/td/socket/TdSocket.java:105-109 | `k=v` with a non-empty value and no `=` elsewhere splits into exactly `[k, v]` |
| Text.Decimal | src/main/java/org/td/socket/TdSocket.java:177 | `String.valueOf(n)`: at least one ASCII decimal digit, a single digit exactly for n < 10, and no leading zero |
| Text.ParseInt | src/main/java/org/td/socket/TdSocket.java:152 | `Integer.parseInt`: a result lies in the int range (its value and when it succeeds: ParseIntMeaning) |
| Text.ParseIntMeaning | src/main/java/org/td/socket/TdSocket.java:152 | `Integer.parseInt` succeeds exactly on an optional sign followed by at least one digit whose signed value fits an int, and returns that value |
| Text.DecimalValue | src/main/java/org/td/socket/TdSocket.java:177 | the digits `String.valueOf` writes denote the number |
| Text.ParseDecimal | src/main/java/org/td/socket/TdSocket.java:152 | `parseInt` reads back what `String.valueOf` wrote for any non-negative int |
| Framing.ScanHeader | src/main/java/org/td/socket/TdSocket.java:120-134 | a header is found exactly when the stream holds a newline; it is the bytes before the first newline, the newline is dropped and the rest stays unread; otherwise the stream ended (EndOfStream) |
| Framing.ScanHeaderOf | src/main/java/org/td/socket/TdSocket.java:127-129 | with no newline in h, the header of `h + newline + rest` is h and the rest is rest |
| Framing.CollectHas | src/main/java/org/td/socket/TdSocket.java:104-110 | after storing the pieces' entries a key is present exactly when it was already present or some piece defines it |
| Framing.CollectUntouched | src/main/java/org/td/socket/TdSocket.java:104-110 | a key no piece defines keeps its earlier value |
| Framing.CollectLast | src/main/java/org/td/socket/TdSocket.java:109 | the value of the last piece defining a key is the value stored |
| Framing.ParametersLookup | src/main/java/org/td/socket/TdSocket.java:100-113 | `getParameters` (Parameters, folding Entry over the pieces with Collect) has a key exactly when some `;`-piece splits on `=` into two fields with that key, and maps it to the value of the last such piece |
| Framing.Header | src/main/java/org/td/socket/TdSocket.java:176-177 | the header written for n bytes is ASCII and is `length=` followed by the decimal digits of n |
| Framing.HeaderParameters | src/main/java/org/td/socket/TdSocket.java:176-178 | parsing the encoder's header gives exactly the map `{length: decimal(n)}` |
| Framing.EncodeFrameParts | src/main/java/org/td/socket/TdSocket.java:176-179 | the frame is exactly the four writes of `sendMessage`, in order: `length=`, the decimal length, the newline, the message, and nothing else |
| Framing.HeaderBytesNoNewline | src/main/java/org/td/socket/TdSocket.java:176-178 | the header the encoder writes holds no newline byte, so the decoder's header ends at the encoder's newline |
| Framing.EncodeFrameHeader | src/main/java/org/td/socket/TdSocket.java:176-179 | the frame `sendMessage` writes (EncodeFrame): the header reader finds exactly the header `length=<n>` in it, and the message follows the newline |
| Framing.ContentLength | src/main/java/org/td/socket/TdSocket.java:147-155 | no `length` key is MissingLength, and only then; a value parseInt refuses is BadLength with that value, and BadLength only for such a value; a parsed value below 1 is EmptyContent, and only then; a parsed value of at least 1 is accepted as `Ok` of that value, and every success is such a value, in 1..MaxInt |
| Framing.DecodeFrame | src/main/java/org/td/socket/TdSocket.java:141-166 | on success the header was found, announced exactly the payload's length (1..MaxInt), and the payload is the bytes right after the newline, ahead of the unread rest, which is shorter than the input; a stream ending early leaves nothing unread |
| Framing.TakePayload | src/main/java/org/td/socket/TdSocket.java:157-165 | the payload step on the bytes after the header: it succeeds exactly when n bytes follow, returning those n bytes with the rest unread, and otherwise the stream ended |
| Framing.DecodeFrameOutcome | src/main/java/org/td/socket/TdSocket.java:141-166 | when decoding fails: no newline is EndOfStream with nothing left; a length that is missing, malformed or below 1 gives that error with the payload bytes left unread; a valid length decodes exactly when that many bytes follow the newline |
| Framing.DecodeEncode | src/main/java/org/td/socket/TdSocket.java:141-166 | round trip: decoding the frame `sendMessage` writes for a payload of 1..MaxInt bytes returns the payload and leaves what follows unread |
| Framing.EmptyFrameRejected | src/main/java/org/td/socket/TdSocket.java:153-155 | the frame written for an empty message is always refused by the decoder with EmptyContent |
| Connections.TdSocket.constructor | src/main/java/org/td/socket/TdSocket.java:41-60 | a client connection starts without a socket, with timeout 10000 and both heartbeat strings "still alive" |
| Connections.TdSocket.Accepted | src/main/java/org/td/socket/TdSocket.java:62-68 | a connection around an accepted socket starts open on the socket's streams, with the same defaults |
| Connections.TdSocket.Connect | src/main/java/org/td/socket/TdSocketClient.java:19-24 | a new socket replaces the old one (read timeout unset); on success it is open and connected, on the peer's stream with an empty output; on failure the new socket exists, is not closed and is not connected |
| Connections.TdSocket.GetTimeOut | src/main/java/org/td/socket/TdSocket.java:81-83 | returns the stored timeout |
| Connections.TdSocket.SetTimeOut | src/main/java/org/td/socket/TdSocket.java:88-93 | the timeout is stored first; then a present socket takes it as its read timeout, or refuses it when closed or negative, after the field has changed |
| Connections.TdSocket.Close | src/main/java/org/td/socket/TdSocket.java:188-192 | a present socket ends closed; without one nothing changes; either way it is afterwards neither connected (`isConnect`) nor live for the reader and writer loops |
| Connections.TdSocket.ReadHeader | src/main/java/org/td/socket/TdSocket.java:120-134 | on an open socket reads exactly what ScanHeader says (header up to the first newline, newline consumed) or fails at the end of the stream with the stream drained; with no socket or a closed one reads nothing and returns "" |
| Connections.TdSocket.GetParameters | src/main/java/org/td/socket/TdSocket.java:100-113 | the loop builds exactly the map Parameters gives |
| Connections.TdSocket.Read | src/main/java/org/td/socket/TdSocket.java:161 | one `InputStream.read`: -1 at the end of the stream; otherwise any count between 1 and min(len, bytes available), chosen freely, of the stream's next bytes copied to buf at off, the rest of buf untouched |
| Connections.TdSocket.ReadMessage | src/main/java/org/td/socket/TdSocket.java:141-166 | on an open socket returns exactly DecodeFrame's outcome and leaves its rest unread; without streams it fails; with no or a closed socket the empty header has no length |
| Connections.TdSocket.ReadContent | src/main/java/org/td/socket/TdSocket.java:157-165 | the payload is the next contentLen bytes whatever count each read call returns; a stream too short fails with the stream drained |
| Connections.TdSocket.SendMessage | src/main/java/org/td/socket/TdSocket.java:173-181 | the send time is recorded first; on an open socket exactly the frame `length=<n>`, newline, message is appended to the output |
| Heartbeat.Delivers | src/main/java/org/td/socket/SocketManager.java:148 | a frame is delivered exactly when it differs from the heartbeat response's bytes |
| Heartbeat.SleepTime | src/main/java/org/td/socket/SocketManager.java:176-178 | the sleep is never negative, is zero exactly when the timeout less 2000 has passed since the last send, and otherwise ends exactly then |
| Heartbeat.IdleWakeSends | src/main/java/org/td/socket/SocketManager.java:176-182 | if nothing was sent during a full sleep, the wake does not skip the heartbeat |
| Heartbeat.SkipThenSleeps | src/main/java/org/td/socket/SocketManager.java:176-182 | at a wake that skips the heartbeat (SkipHeartbeat), the sleep computed at that same time is more than 1000 ms; the next sleep is computed at a later clock reading, so the loop does not spin while that reading comes less than 1000 ms later |
| Heartbeat.HeartbeatTimes | src/main/java/org/td/socket/SocketManager.java:174-186 | the writer sends at most once per iteration, and every send comes at least the timeout less 3000 after the previous one |
| Heartbeat.IdleWriterSendsEveryTime | src/main/java/org/td/socket/SocketManager.java:174-186 | with real sleeps and no other sender, the writer sends a heartbeat at every wake |
| Manager.TasksAppend | src/main/java/org/td/socket/SocketManager.java:149-151 | queuing two runs of messages queues the deliveries of both, in order |
| Manager.Queued | src/main/java/org/td/socket/SocketManager.java:146-153 | one frame queues nothing exactly when it is the heartbeat response, and otherwise queues itself verbatim |
| Manager.ReaderRunQueues | src/main/java/org/td/socket/SocketManager.java:143-154 | every message the reader run (ReaderRun) queues is a non-empty payload that passes the heartbeat filter, and the run never grows the input |
| Manager.ReaderRunStep | src/main/java/org/td/socket/SocketManager.java:143-154 | after a successful read the run queues that frame's outcome and then continues from the rest |
| Manager.ReaderLoopRun | src/main/java/org/td/socket/SocketManager.java:143-154 | reading into a queue appends the deliveries of ReaderRun behind what was waiting, and leaves the same input unread |
| Manager.ReaderKeepsOrder | src/main/java/org/td/socket/SocketManager.java:141-161 | FIFO per connection: reading the peer's frames queues exactly its non-heartbeat messages in the order they were sent |
| Manager.HeartbeatDropped | src/main/java/org/td/socket/SocketManager.java:146-148 | a heartbeat frame in the stream changes nothing the reader queues |
| Manager.SkipsDecodedHeartbeat | src/main/java/org/td/socket/SocketManager.java:146-148 | a stream whose first frame decodes to the heartbeat runs as the stream after it |
| Manager.AcceptedOutcomes | src/main/java/org/td/socket/SocketManager.java:87-93 | the accepted connections are exactly the non-null accept outcomes |
| Manager.AcceptEventsOutcomes | src/main/java/org/td/socket/SocketManager.java:87-97 | one callback per accept attempt: success for a connection, failure for a failed accept |
| Manager.AcceptStep | src/main/java/org/td/socket/SocketManager.java:87-98 | one more accept attempt extends the accepted connections and the callbacks by that attempt's own |
| Manager.RemoveFirst | src/main/java/org/td/socket/SocketManager.java:119 | `ArrayList.remove(Object)`: an absent element changes nothing; otherwise exactly one occurrence is gone |
| Manager.RemoveFirstAt | src/main/java/org/td/socket/SocketManager.java:119 | what remains is everything before the first occurrence, then everything after it |
| Manager.WriterRunSends | src/main/java/org/td/socket/SocketManager.java:174-186 | the writer over its iterations (WriterRun) writes one heartbeat frame at each of the HeartbeatTimes and nothing else, and the last of them is the send time in force afterwards |
| Manager.WriterRunStep | src/main/java/org/td/socket/SocketManager.java:180-185 | one iteration either skips (nothing changes) or sends (time recorded, frame written) |
| Manager.SocketManager.constructor | src/main/java/org/td/socket/SocketManager.java:38-48 | no invokers, empty queue, empty registry |
| Manager.SocketManager.Start | src/main/java/org/td/socket/SocketManager.java:102-113 | starts the connection's tasks; spawns maxInvokeThread minus the running invokers, leaving exactly maxInvokeThread, and never exceeds it |
| Manager.SocketManager.AddTdSocketClient | src/main/java/org/td/socket/SocketManager.java:69-83 | the client is registered before connecting and stays registered; its new socket has no read timeout; success opens it on the peer's bytes with an empty output, starts it and reports success; failure reports failure, starts nothing and leaves the client's input and output as they were |
| Manager.SocketManager.AddTdSocketServer | src/main/java/org/td/socket/SocketManager.java:85-100 | every accepted connection is registered and started in accept order, and every attempt is reported under the server's id |
| Manager.SocketManager.AcceptOne | src/main/java/org/td/socket/SocketManager.java:88-97 | one accept attempt: a connection is registered, started and reported as success; a failed accept is only reported |
| Manager.SocketManager.RemoveTdSocket | src/main/java/org/td/socket/SocketManager.java:118-122 | removes the first occurrence from the registry and closes the socket only if it exists and is not closed |
| Manager.SocketManager.AddTask | src/main/java/org/td/socket/SocketManager.java:150-151 | a task joins the queue at the tail |
| Manager.SocketManager.TakeTask | src/main/java/org/td/socket/SocketManager.java:201-212 | the head of the queue is taken and the rest stays as it was; an empty queue gives nothing |
| Manager.SocketManager.RunInvoker | src/main/java/org/td/socket/SocketManager.java:196-224 | while connections are registered, runs every queued delivery in queue order and then waits; with no connection registered it leaves and decrements the invoker count exactly once |
| Manager.SocketManager.OnFrame | src/main/java/org/td/socket/SocketManager.java:146-153 | a frame is queued for its connection exactly when it is not the heartbeat response |
| Manager.SocketManager.ReaderStep | src/main/java/org/td/socket/SocketManager.java:143-154 | one pass of the reader: consumes exactly one frame, queues it unless it is a heartbeat, and reports whether the read succeeded |
| Manager.SocketManager.RunReader | src/main/java/org/td/socket/SocketManager.java:141-161 | the queue grows by exactly the deliveries ReaderRun gives, the input is left where the run stops, and the disconnection is always reported |
| Manager.SocketManager.WriterSleep | src/main/java/org/td/socket/SocketManager.java:176-178 | the sleep at the first clock reading is never negative and is exactly `SleepTime` of the timeout, that reading and the last send time, the one definition of `max(0, timeout - elapsed - 2000)` whose meaning SleepTime's contract states |
| Manager.SocketManager.WriterWake | src/main/java/org/td/socket/SocketManager.java:180-185 | skips exactly when `now - lastSentTime + 3000 < timeout`; otherwise records the wake reading `now` as the send time and writes the frame of the heartbeat request's bytes |
| Manager.SocketManager.WriterIteration | src/main/java/org/td/socket/SocketManager.java:176-185 | one iteration: the sleep is computed and not otherwise specified; what is specified is the send decision at the second clock reading, with the new send time and the output stated exactly |
| Manager.SocketManager.RunWriter | src/main/java/org/td/socket/SocketManager.java:172-190 | on an open connection the output grows by exactly one heartbeat frame per HeartbeatTimes entry and the last send time is the last of them; on a closed one nothing happens |

## Left out

- Threads, the thread pool, `synchronized`, `wait`/`notify`/`notifyAll`: the model is sequential. Each task runs as a method between the points where the Java thread would block or end. `RunInvoker` returning without leaving stands for the invoker's `wait()`. The `notifyAll` in `removeTdSocket` changes no state and is left out. The pool's `RejectedExecutionException` for a full queue is not modelled.
- Real sockets and streams: the input is a byte sequence and the output an appended byte sequence. `Connect`'s peer parameter says whether the connect succeeds and what the peer sends. `AddTdSocketServer` takes the outcome of each `accept()`, with null for an accept that threw. `TdSocketServer` itself is not part of this model.
- Wall-clock time and sleeping: clock readings are parameters (`Tick`). The writer is modelled over a given finite list of iterations, because in the source it runs until the socket closes.
- Manager.SocketManager.WriterWake: the send time recorded is the wake's own clock reading `now`, because `sendMessage` is given that reading. In Java `sendMessage` reads the clock again, after possibly waiting for the socket lock, so the time it stores can be later. `WriterIteration`, `RunWriter` and `WriterRunSends` inherit this: their "last send time" is the wake reading. The spacing of heartbeats (`HeartbeatTimes`) would only grow with a later send reading.
- Callbacks and logging: callbacks are recorded as `Event`s. The log callback is a side channel and is dropped. `onReceiveMessage` is the only callback that goes through `invokeTaskList`; the others are made directly by the registering, accepting or reading thread, as in the code.
- Connections.TdSocket.Connect: a failed connect leaves the state Unconnected, and reads and writes on it give NotConnected. That is Java's behaviour after a first connect fails: the streams are still null, so reads and writes throw a NullPointerException. After an earlier successful connect, Java keeps the old socket's streams, and reads and writes would still reach them. The model does not keep those old streams.
- Connections.TdSocket.ReadMessage: on an Unconnected socket it gives NotConnected, for the reason given under Connect.
- Connections.TdSocket.ReadContent: when the stream ends early, the Java loop adds -1 to its count and then fails on a negative offset. The model returns EndOfStream with the stream drained and does not reproduce the intermediate reads.
- Character sets: one character per byte (code point equals byte value). This equals UTF-8 for ASCII. The heartbeat strings are required to be ASCII, so UTF-8 encoding beyond ASCII is not modelled.
- Text.ParseInt: accepts only ASCII digits. Java's `Character.digit` also accepts other Unicode decimal digits.
- `long` arithmetic in the writer (`System.currentTimeMillis() - lastSentTime`) is modelled on unbounded integers, because overflow needs clock values 292 million years apart.
- Manager.SocketManager.RunReader: requires an open socket. The reader is only started by `start`, after a successful connect or accept, and a concurrent close from another thread is not modelled.
- Manager.SocketManager.RunWriter: requires a socket that is not the failed-connect one, for the same reason as RunReader. A send that throws would end the Java loop, and the model's writer does not stop on it.
- Manager.ReaderRunQueues: states that queued messages pass the heartbeat filter through Delivers, rather than as a byte-wise disequality with the response.
- A delivery task is modelled as its connection id and content, captured when it is queued; `getId()` called later by the Java lambda would see a later `setId`.
